/** String helpers used by several source files: `sep.join(...)` and ASCII `str.lower()`. */
module Text {

  /** Python's `sep.join(ts)`. */
  function Join(ts: seq<string>, sep: string): (r: string)
    ensures |ts| == 0 ==> r == []
    ensures |ts| == 1 ==> r == ts[0]
    ensures |ts| > 0 ==> |r| == TotalLength(ts) + (|ts| - 1) * |sep|
  {
    if |ts| == 0 then []
    else if |ts| == 1 then ts[0]
    else ts[0] + sep + Join(ts[1..], sep)
  }

  /** The sum of the lengths of the strings in `ts`. */
  function TotalLength(ts: seq<string>): nat
  {
    if |ts| == 0 then 0 else |ts[0]| + TotalLength(ts[1..])
  }

  /** Appending one more string to a non-empty join adds exactly one separator. */
  lemma {:induction false} JoinSnoc(ts: seq<string>, t: string, sep: string)
    requires |ts| > 0
    ensures Join(ts + [t], sep) == Join(ts, sep) + sep + t
  {
    if |ts| == 1 {
      assert ts + [t] == [ts[0], t];
      assert ([ts[0], t])[1..] == [t];
    } else {
      assert (ts + [t])[1..] == ts[1..] + [t];
      JoinSnoc(ts[1..], t, sep);
    }
  }

  /** ASCII lower-casing of one character. */
  function LowerChar(c: char): (d: char)
    ensures 'A' <= c <= 'Z' ==> 'a' <= d <= 'z' && d as int - c as int == 32
    ensures !('A' <= c <= 'Z') ==> d == c
  {
    if 'A' <= c <= 'Z' then (c as int + 32) as char else c
  }

  /** `s.lower()`, restricted to the ASCII letters. */
  function Lower(s: string): (r: string)
    ensures |r| == |s|
    ensures forall i :: 0 <= i < |s| ==> r[i] == LowerChar(s[i])
  {
    if |s| == 0 then [] else [LowerChar(s[0])] + Lower(s[1..])
  }

  /** No upper-case ASCII letter is left after lower-casing. */
  lemma LowerHasNoUpper(s: string, i: int)
    requires 0 <= i < |s|
    ensures !('A' <= Lower(s)[i] <= 'Z')
  {
  }

  /** Lower-casing twice is lower-casing once. */
  lemma {:induction false} LowerIdempotent(s: string)
    ensures Lower(Lower(s)) == Lower(s)
  {
    var l := Lower(s);
    assert |Lower(l)| == |l|;
    forall i | 0 <= i < |l| ensures Lower(l)[i] == l[i] {
      LowerHasNoUpper(s, i);
    }
  }
}
