/**
 * Two display helpers of the dashboard: the relative age of an activity and
 * the colour of its marker.
 */
module Dashboard {
  import Text

  /** The rendered age: a phrase, or the date itself once a week has passed. */
  datatype Age = Phrase(text: string) | LocaleDate

  /** Whole seconds elapsed, `Math.floor(ms / 1000)`; Dafny's division by a positive divisor rounds down too. */
  function ElapsedSeconds(elapsedMillis: int): int {
    elapsedMillis / 1000
  }

  /** How long ago something happened, given the milliseconds elapsed since then (negative for the future). */
  function FormatTimeAgo(elapsedMillis: int): (a: Age)
    ensures ElapsedSeconds(elapsedMillis) < 60 ==> a == Phrase("just now")
    ensures ElapsedSeconds(elapsedMillis) >= 604800 <==> a == LocaleDate
  {
    var secs := ElapsedSeconds(elapsedMillis);
    if secs < 60 then Phrase("just now")
    else if secs < 3600 then Phrase(Text.NatToString(secs / 60) + " minutes ago")
    else if secs < 86400 then Phrase(Text.NatToString(secs / 3600) + " hours ago")
    else if secs < 604800 then Phrase(Text.NatToString(secs / 86400) + " days ago")
    else LocaleDate
  }

  /** The unit count shown in each band stays within its natural range. */
  lemma UnitCountsInRange(elapsedMillis: int)
    ensures var secs := ElapsedSeconds(elapsedMillis);
      && (60 <= secs < 3600 ==>
            1 <= secs / 60 <= 59 && FormatTimeAgo(elapsedMillis) == Phrase(Text.NatToString(secs / 60) + " minutes ago"))
      && (3600 <= secs < 86400 ==>
            1 <= secs / 3600 <= 23 && FormatTimeAgo(elapsedMillis) == Phrase(Text.NatToString(secs / 3600) + " hours ago"))
      && (86400 <= secs < 604800 ==>
            1 <= secs / 86400 <= 6 && FormatTimeAgo(elapsedMillis) == Phrase(Text.NatToString(secs / 86400) + " days ago"))
  {
  }

  /** The seconds are rounded down, so 59 999 ms is still "just now" and a future time is too. */
  lemma RoundsDown()
    ensures FormatTimeAgo(59999) == Phrase("just now")
    ensures FormatTimeAgo(-5000) == Phrase("just now")
    ensures FormatTimeAgo(60000) == Phrase("1 minutes ago")
  {
    assert Text.NatToString(1) == "1";
  }

  /** The marker colour of an activity. */
  function ActivityColor(kind: string, status: string): (c: string)
    ensures c == "bg-blue-600" <==> kind == "protocol" && status == "published"
    ensures c == "bg-green-600" <==> kind == "replication" && status == "verified"
    ensures c in {"bg-blue-600", "bg-green-600", "bg-yellow-600"}
  {
    if kind == "protocol" && status == "published" then "bg-blue-600"
    else if kind == "replication" && status == "verified" then "bg-green-600"
    else "bg-yellow-600"
  }
}
