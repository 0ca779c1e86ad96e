/** The game records: as the archive endpoint returns them, and as the
    activity report keeps them. */
module Records {
  import opened Wrappers

  /** A `white` or `black` object of a game; only its `username` is read. */
  datatype PlayerRef = PlayerRef(username: Option<string>)

  /** One game of a monthly archive, each field possibly absent.
      `endTime` is in epoch seconds. */
  datatype RawGame = RawGame(
    url: Option<string>,
    endTime: Option<int>,
    timeClass: Option<string>,
    rated: Option<bool>,
    white: Option<PlayerRef>,
    black: Option<PlayerRef>)

  /** The projection of a game kept for the report; its end time is known. */
  datatype RecentGame = RecentGame(
    url: Option<string>,
    endTime: int,
    timeClass: Option<string>,
    rated: Option<bool>,
    white: Option<string>,
    black: Option<string>)

  /** The fetch of one monthly archive: its list of games, or a failure. */
  type ArchiveFetch = Fetch<seq<RawGame>>
}
