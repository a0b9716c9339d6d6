/** Timestamps: the key of every note. A timestamp is a calendar day (an
    ordinal day number, the value `date()` projects out) and a time of day
    (microseconds since midnight); they are ordered day first. */
module Time {
  import opened Common
  import opened Text

  type Date = nat

  datatype Timestamp = Timestamp(date: Date, time: nat)

  /** The strict order of `datetime` values. */
  predicate Before(a: Timestamp, b: Timestamp) {
    a.date < b.date || (a.date == b.date && a.time < b.time)
  }

  predicate Ascending(s: seq<Timestamp>) {
    forall i, j :: 0 <= i < j < |s| ==> Before(s[i], s[j])
  }

  /** The text form written into a line: the day, "T", the time of day. */
  function IsoFormat(t: Timestamp): (s: string)
    ensures '\t' !in s && ' ' !in s && '\n' !in s
  {
    Decimal(t.date) + "T" + Decimal(t.time)
  }

  /** Parses the text form; None plays the ValueError of `fromisoformat`. */
  function FromIsoFormat(s: string): Option<Timestamp>
  {
    var parts := Split(s, 'T');
    if |parts| != 2 then None
    else
      match (ParseDecimal(parts[0]), ParseDecimal(parts[1]))
      case (Some(d), Some(t)) => Some(Timestamp(d, t))
      case _ => None
  }

  lemma IsoFormatRoundTrip(t: Timestamp)
    ensures FromIsoFormat(IsoFormat(t)) == Some(t)
  {
    var d, h := Decimal(t.date), Decimal(t.time);
    assert forall i :: 0 <= i < |d| ==> d[i] != 'T' by {
      forall i | 0 <= i < |d| ensures d[i] != 'T' { assert IsDigit(d[i]); }
    }
    assert forall i :: 0 <= i < |h| ==> h[i] != 'T' by {
      forall i | 0 <= i < |h| ensures h[i] != 'T' { assert IsDigit(h[i]); }
    }
    assert IsoFormat(t) == Join([d, h], 'T');
    SplitJoin([d, h], 'T');
    DecimalRoundTrip(t.date);
    DecimalRoundTrip(t.time);
  }

  /** The day's text used in a partition file name (`strftime('%Y-%m-%d')`). */
  function DateText(d: Date): string {
    Decimal(d)
  }

  // ---------------------------------------------------------------------
  // sorted() over distinct timestamps

  function Insert(x: Timestamp, s: seq<Timestamp>): (r: seq<Timestamp>)
    requires Ascending(s) && x !in s
    ensures Ascending(r)
    ensures |r| == |s| + 1
    ensures forall y :: y in r <==> y == x || y in s
  {
    if |s| == 0 || Before(x, s[0]) then [x] + s
    else
      var rest := Insert(x, s[1..]);
      assert forall y :: y in rest ==> Before(s[0], y);
      [s[0]] + rest
  }

  /** Python's `sorted` on a list of distinct timestamps: the same elements in
      ascending order. */
  function Sort(s: seq<Timestamp>): (r: seq<Timestamp>)
    requires Distinct(s)
    ensures Ascending(r)
    ensures |r| == |s|
    ensures forall y :: y in r <==> y in s
  {
    if |s| == 0 then []
    else
      assert forall i, j :: 0 <= i < j < |s[1..]| ==> s[1..][i] != s[1..][j] by {
        forall i, j | 0 <= i < j < |s[1..]| ensures s[1..][i] != s[1..][j] {
          assert s[1..][i] == s[i + 1] && s[1..][j] == s[j + 1];
        }
      }
      Insert(s[0], Sort(s[1..]))
  }
}
