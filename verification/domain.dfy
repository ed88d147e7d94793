/** The records of the transit domain (domain.h), with integer ids in place
    of the `Stop*` and `Bus*` addresses: a stop id is the stop's index in the
    catalogue's registration sequence, a bus id likewise. */
module Domain {

  type StopId = nat
  type BusId = nat

  /** Geographic coordinates; only carried, never computed with here. */
  datatype Coordinates = Coordinates(latitude: real, longitude: real)

  datatype Stop = Stop(name: string, coordinates: Coordinates)

  datatype Bus = Bus(name: string, stops: seq<StopId>, isRound: bool)

  /** Answer to a bus query. `busExist` is declared with default `false`;
      the curvature field is not part of this model. */
  datatype BusResponse = BusResponse(busExist: bool, stopsCount: nat, uniqueStopsCount: nat, routeLength: int)

  /** Answer to a stop query: the serving buses in ascending name order. */
  datatype StopResponse = StopResponse(stopExist: bool, buses: seq<string>)

  /** One segment of an itinerary, with its duration in minutes. */
  datatype Timecut =
    | Wait(time: real, stopName: string)
    | RidingBus(time: real, busName: string, spanCount: nat)

  datatype RouteResponse = RouteResponse(totalTime: real, timeCuts: seq<Timecut>)

  /** Minutes of waiting at a stop and bus speed in km/h. */
  datatype RoutingSettings = RoutingSettings(busWaitTime: real, busVelocity: real)
}
