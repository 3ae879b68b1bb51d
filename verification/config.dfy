/** The stored push-notification settings: a preferred preset and an
    optional push credential. */
module Config {
  import opened Wrappers
  import opened Time

  datatype WxPusherConfig = WxPusherConfig(timeMode: Option<TimeMode>, sptToken: Option<string>)

  /** Builds a configuration, filling a missing preset with Medium. */
  function New(timeMode: Option<TimeMode>, sptToken: Option<string>): (c: WxPusherConfig)
    ensures c.timeMode.Some?
    ensures timeMode.Some? ==> c.timeMode == timeMode
    ensures timeMode.None? ==> c.timeMode == Some(Medium)
    ensures c.sptToken == sptToken
  {
    WxPusherConfig(Some(timeMode.GetOr(Medium)), sptToken)
  }

  /** The configuration used when the store holds none. */
  function Default(): (c: WxPusherConfig)
    ensures c == New(None, None)
  {
    WxPusherConfig(Some(Medium), None)
  }

  /** The preset to run, Medium when none is stored. */
  function GetTimeMode(c: WxPusherConfig): (m: TimeMode)
    ensures c.timeMode.Some? ==> m == c.timeMode.value
    ensures c.timeMode.None? ==> m == Medium
  {
    c.timeMode.GetOr(Medium)
  }

  /** The push credential, as stored: storing it back changes nothing. */
  function GetSptToken(c: WxPusherConfig): (t: Option<string>)
    ensures c.(sptToken := t) == c
  {
    c.sptToken
  }

  /** Building a configuration and reading it back gives the preset asked for
      (or Medium) and the token unchanged; and every built configuration is a
      fixed point of rebuilding from its own reads. */
  lemma NewRoundTrip(timeMode: Option<TimeMode>, sptToken: Option<string>)
    ensures GetTimeMode(New(timeMode, sptToken)) == timeMode.GetOr(Medium)
    ensures GetSptToken(New(timeMode, sptToken)) == sptToken
    ensures var c := New(timeMode, sptToken);
      New(Some(GetTimeMode(c)), GetSptToken(c)) == c
  {
  }
}
