/**
  String helpers that the timemap parser and the string predicate rely on:
  literal search (optionally behind a regex word boundary `\b`), the capture
  shape `open([^close]+)close` of the timemap regexes, and `split` on a
  separator character.
 */
module Text {
  import opened Wrappers

  /** The characters of the regex class `\w`. */
  predicate WordChar(c: char) {
    ('a' <= c <= 'z') || ('A' <= c <= 'Z') || ('0' <= c <= '9') || c == '_'
  }

  /** A regex `\b` at position `i`, for a pattern whose next character is a word
      character: the match starts the string or follows a non-word character. */
  predicate BoundaryBefore(s: string, i: nat)
    requires i <= |s|
  {
    i == 0 || !WordChar(s[i - 1])
  }

  /** `lit` occurs in `s` at position `i` (behind a `\b` when `bounded`). */
  predicate Occurs(s: string, lit: string, bounded: bool, i: nat) {
    && i + |lit| <= |s|
    && s[i..i + |lit|] == lit
    && (bounded ==> BoundaryBefore(s, i))
  }

  /** The leftmost occurrence of `lit` at or after `from`. */
  function FirstOccurrence(s: string, lit: string, bounded: bool, from: nat): (r: Option<nat>)
    decreases |s| - from
    ensures r.Some? ==> from <= r.value && Occurs(s, lit, bounded, r.value)
    ensures r.Some? ==> forall k :: from <= k < r.value ==> !Occurs(s, lit, bounded, k)
    ensures r.None? ==> forall k: nat :: from <= k ==> !Occurs(s, lit, bounded, k)
  {
    if from + |lit| > |s| then None
    else if Occurs(s, lit, bounded, from) then Some(from)
    else FirstOccurrence(s, lit, bounded, from + 1)
  }

  /** JavaScript `s.includes(p)`: plain substring containment. */
  function Includes(s: string, p: string): (r: bool)
    ensures r <==> exists i: nat :: Occurs(s, p, false, i)
  {
    FirstOccurrence(s, p, false, 0).Some?
  }

  /** The first index at or after `from` holding `c`, or `|s|` when there is none. */
  function IndexFrom(s: string, c: char, from: nat): (k: nat)
    requires from <= |s|
    decreases |s| - from
    ensures from <= k <= |s|
    ensures forall j :: from <= j < k ==> s[j] != c
    ensures k < |s| ==> s[k] == c
  {
    if from == |s| || s[from] == c then from else IndexFrom(s, c, from + 1)
  }

  /** The regex `open([^close]+)close` (with `\b` in front when `bounded`) matches
      `s` starting at `i`, and the closing delimiter sits at `j`. */
  predicate Captures(s: string, open: string, close: char, bounded: bool, i: nat, j: nat) {
    && Occurs(s, open, bounded, i)
    && i + |open| < j < |s|
    && s[j] == close
    && (forall k :: i + |open| <= k < j ==> s[k] != close)
  }

  /** Where the capture starts is enough to know where it ends. */
  lemma CaptureEndUnique(s: string, open: string, close: char, bounded: bool, i: nat, j: nat, j': nat)
    requires Captures(s, open, close, bounded, i, j)
    requires Captures(s, open, close, bounded, i, j')
    ensures j == j'
  {
  }

  datatype Span = Span(start: nat, end: nat)

  /** The leftmost match of `open([^close]+)close` starting at or after `from`,
      as the positions of the opening literal and of the closing delimiter. */
  function CaptureFrom(s: string, open: string, close: char, bounded: bool, from: nat): (r: Option<Span>)
    decreases |s| - from
    ensures r.Some? ==> from <= r.value.start && Captures(s, open, close, bounded, r.value.start, r.value.end)
    ensures r.Some? ==> forall i: nat, j: nat :: from <= i < r.value.start ==> !Captures(s, open, close, bounded, i, j)
    ensures r.None? ==> forall i: nat, j: nat :: from <= i ==> !Captures(s, open, close, bounded, i, j)
  {
    if from + |open| >= |s| then None
    else if Occurs(s, open, bounded, from) then
      var j := IndexFrom(s, close, from + |open|);
      if from + |open| < j < |s| then Some(Span(from, j))
      else
        var r := CaptureFrom(s, open, close, bounded, from + 1);
        assert forall j': nat :: !Captures(s, open, close, bounded, from, j');
        r
    else CaptureFrom(s, open, close, bounded, from + 1)
  }

  /** The text captured by the group of the leftmost match, if the regex matches:
      a non-empty run free of the closing delimiter, enclosed by the opening
      literal and the delimiter in `s`, and no match starts further left. */
  function FirstCapture(s: string, open: string, close: char, bounded: bool): (r: Option<string>)
    ensures r.Some? <==> exists i: nat, j: nat :: Captures(s, open, close, bounded, i, j)
    ensures r.Some? ==> |r.value| > 0 && close !in r.value
    ensures r.Some? ==> exists i: nat ::
      && Occurs(s, open + r.value + [close], bounded, i)
      && (forall i': nat, j': nat :: i' < i ==> !Captures(s, open, close, bounded, i', j'))
  {
    match CaptureFrom(s, open, close, bounded, 0)
    case None => None
    case Some(sp) =>
      var v := s[sp.start + |open|..sp.end];
      assert s[sp.start..sp.end + 1] == open + v + [close];
      assert forall k :: 0 <= k < |v| ==> v[k] == s[sp.start + |open| + k];
      assert Occurs(s, open + v + [close], bounded, sp.start);
      Some(v)
  }

  /** When a match is known to start at `i` and no match starts earlier, the
      captured text is `s[i + |open|..j]`. */
  lemma FirstCaptureAt(s: string, open: string, close: char, bounded: bool, i: nat, j: nat)
    requires Captures(s, open, close, bounded, i, j)
    requires forall i': nat, j': nat :: i' < i ==> !Captures(s, open, close, bounded, i', j')
    ensures FirstCapture(s, open, close, bounded) == Some(s[i + |open|..j])
  {
    var r := CaptureFrom(s, open, close, bounded, 0);
    assert r.Some?;
    var sp := r.value;
    assert sp.start == i;
    CaptureEndUnique(s, open, close, bounded, i, j, sp.end);
  }

  /** JavaScript `s.split(d)` for a one-character separator. */
  function Split(s: string, d: char): (parts: seq<string>)
    decreases |s|
    ensures |parts| >= 1
    ensures forall k :: 0 <= k < |parts| ==> d !in parts[k]
  {
    var k := IndexFrom(s, d, 0);
    if k == |s| then [s] else [s[..k]] + Split(s[k + 1..], d)
  }

  /** JavaScript `parts.join(d)`. */
  function Join(parts: seq<string>, d: char): string
    requires |parts| >= 1
  {
    if |parts| == 1 then parts[0] else parts[0] + [d] + Join(parts[1..], d)
  }

  /** Splitting and re-joining gives the text back. */
  lemma {:induction false} JoinSplit(s: string, d: char)
    ensures Join(Split(s, d), d) == s
    decreases |s|
  {
    var k := IndexFrom(s, d, 0);
    if k < |s| {
      JoinSplit(s[k + 1..], d);
      assert s == s[..k] + [d] + s[k + 1..];
    }
  }

  /** The first separator ends the first piece. */
  lemma SplitFirst(a: string, b: string, d: char)
    requires d !in a
    ensures Split(a + [d] + b, d) == [a] + Split(b, d)
  {
    var s := a + [d] + b;
    var k := IndexFrom(s, d, 0);
    assert s[|a|] == d;
    assert forall j :: 0 <= j < |a| ==> s[j] == a[j];
    assert k == |a|;
    assert s[..k] == a;
    assert s[k + 1..] == b;
  }

  /** Joining pieces free of the separator and splitting again gives the pieces back. */
  lemma {:induction false} SplitJoin(parts: seq<string>, d: char)
    requires |parts| >= 1
    requires forall k :: 0 <= k < |parts| ==> d !in parts[k]
    ensures Split(Join(parts, d), d) == parts
    decreases |parts|
  {
    if |parts| == 1 {
      assert IndexFrom(parts[0], d, 0) == |parts[0]|;
    } else {
      SplitFirst(parts[0], Join(parts[1..], d), d);
      SplitJoin(parts[1..], d);
      assert parts == [parts[0]] + parts[1..];
    }
  }
}
