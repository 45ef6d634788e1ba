/** The records the application passes around (types.ts). */
module Types {
  import opened Wrappers

  /** The six kinds of accessibility point. */
  datatype PointType = Ramp | Elevator | Restroom | Parking | Entrance | Unknown

  /** One user's rating of a point. The value is documented as 1 to 5 but
      nothing checks that, so any integer is allowed here. */
  datatype Rating = Rating(userId: string, value: int)

  /** A geographic coordinate; kept opaque, no arithmetic is done on it. */
  datatype Position = Position(lat: real, lng: real)

  /** An accessibility point. `creatorId`, `customIcon` and `ratings` are
      optional; an absent `ratings` is different from an empty one. */
  datatype Point = Point(
    id: string,
    name: string,
    address: string,
    kind: PointType,
    description: string,
    position: Position,
    creatorId: Option<string>,
    customIcon: Option<string>,
    ratings: Option<seq<Rating>>)

  /** A logged-in user: a stable id and the name as typed at login. */
  datatype User = User(id: string, username: string)

  /** The set of every point kind of the `PointType` enum in types.ts. */
  function AllKinds(): set<PointType> {
    {Ramp, Elevator, Restroom, Parking, Entrance, Unknown}
  }

  /** The enum has exactly six variants and every point kind is one of them. */
  lemma KindsAreSix()
    ensures |AllKinds()| == 6
    ensures forall k: PointType :: k in AllKinds()
  {
    forall k: PointType ensures k in AllKinds() {
      match k
      case Ramp =>
      case Elevator =>
      case Restroom =>
      case Parking =>
      case Entrance =>
      case Unknown =>
    }
  }
}
