/**
  The snapshot list: a Wayback Machine timemap in link format is split into
  lines, the lines tagged `rel="memento"` are kept, and each becomes a
  `Memento` holding its URL and date.
 */
module Timemap {
  import opened Wrappers
  import opened Text

  /** One archived copy of the page. `time` is the Unix time (whole seconds) of
      `datetime`; date parsing itself is a parameter of the parser. */
  datatype Snapshot = Snapshot(url: string, datetime: string, time: int)

  /** Why no snapshot list could be produced. `NoUrl` and `NoDatetime` are the
      TypeError the `Memento` constructor throws when a regex finds nothing. */
  datatype ParseError = NoUrl(line: string) | NoDatetime(line: string) | NoSnapshots

  /** The literal of `/\brel="memento"/`. */
  const MementoRel: string := "rel=\"memento\""
  /** The opening literal of `/\bdatetime="([^"]+)"/`. */
  const DatetimeOpen: string := "datetime=\""

  /** The line filter of `getMementosForURL`. */
  function IsMementoLine(line: string): (r: bool)
    ensures r <==> exists i: nat :: Occurs(line, MementoRel, true, i)
  {
    FirstOccurrence(line, MementoRel, true, 0).Some?
  }

  /** The `Memento` constructor: the URL is the group of `/<([^>]+)>/`, the
      date the group of `/\bdatetime="([^"]+)"/`, each from its leftmost match. */
  function ParseMemento(line: string, toUnix: string -> int): (r: Result<Snapshot, ParseError>)
    ensures r == Failure(NoUrl(line)) <==> FirstCapture(line, "<", '>', false).None?
    ensures r == Failure(NoDatetime(line)) <==>
      FirstCapture(line, "<", '>', false).Some? && FirstCapture(line, DatetimeOpen, '"', true).None?
    ensures r.Success? <==>
      FirstCapture(line, "<", '>', false).Some? && FirstCapture(line, DatetimeOpen, '"', true).Some?
    ensures r.Success? ==> r.value.time == toUnix(r.value.datetime)
    ensures r.Success? ==> |r.value.url| > 0 && '>' !in r.value.url
    ensures r.Success? ==> FirstCapture(line, "<", '>', false) == Some(r.value.url)
    ensures r.Success? ==> |r.value.datetime| > 0 && '"' !in r.value.datetime
    ensures r.Success? ==> FirstCapture(line, DatetimeOpen, '"', true) == Some(r.value.datetime)
  {
    match FirstCapture(line, "<", '>', false)
    case None => Failure(NoUrl(line))
    case Some(url) =>
      match FirstCapture(line, DatetimeOpen, '"', true)
      case None => Failure(NoDatetime(line))
      case Some(datetime) =>
        Success(Snapshot(url, datetime, toUnix(datetime)))
  }

  /** `mementoLines.filter(...)`. */
  function MementoLines(lines: seq<string>): (kept: seq<string>)
    ensures |kept| <= |lines|
    ensures forall x :: x in kept <==> x in lines && IsMementoLine(x)
  {
    if |lines| == 0 then []
    else if IsMementoLine(lines[0]) then [lines[0]] + MementoLines(lines[1..])
    else MementoLines(lines[1..])
  }

  /** The filter keeps the order of the lines: it distributes over concatenation. */
  lemma {:induction false} MementoLinesAppend(a: seq<string>, b: seq<string>)
    ensures MementoLines(a + b) == MementoLines(a) + MementoLines(b)
    decreases |a|
  {
    if |a| > 0 {
      assert (a + b)[1..] == a[1..] + b;
      MementoLinesAppend(a[1..], b);
    } else {
      assert a + b == b;
    }
  }

  /** Line `k` is the first of `lines` on which `construct` fails. */
  predicate FirstFailureAt(lines: seq<string>, construct: string -> Result<Snapshot, ParseError>, k: nat) {
    && k < |lines|
    && construct(lines[k]).Failure?
    && forall k' :: 0 <= k' < k ==> construct(lines[k']).Success?
  }

  /** `.map(mementoLine => new Memento(mementoLine))`, with the constructor as
      `construct`: the first line on which it throws ends the parse with that error. */
  function ParseAll(lines: seq<string>, construct: string -> Result<Snapshot, ParseError>): (r: Result<seq<Snapshot>, ParseError>)
    ensures r.Success? <==> forall k :: 0 <= k < |lines| ==> construct(lines[k]).Success?
    ensures r.Success? ==> |r.value| == |lines|
    ensures r.Success? ==> forall k :: 0 <= k < |lines| ==> construct(lines[k]) == Success(r.value[k])
    ensures r.Failure? ==> exists k: nat :: FirstFailureAt(lines, construct, k) && construct(lines[k]) == Failure(r.error)
  {
    if |lines| == 0 then Success([])
    else
      var head := construct(lines[0]);
      if head.Failure? then
        assert FirstFailureAt(lines, construct, 0);
        Failure(head.error)
      else
        var tail := ParseAll(lines[1..], construct);
        if tail.Failure? then
          ghost var k: nat :| FirstFailureAt(lines[1..], construct, k) && construct(lines[1..][k]) == Failure(tail.error);
          assert FirstFailureAt(lines, construct, k + 1);
          Failure(tail.error)
        else
          Success([head.value] + tail.value)
  }

  /** `getMementosForURL` after the download: split on newlines, keep the
      memento lines, build one snapshot per kept line, in order. */
  function ParseTimemap(timemap: string, toUnix: string -> int): (r: Result<seq<Snapshot>, ParseError>)
    ensures r.Success? ==> |r.value| == |MementoLines(Split(timemap, '\n'))|
    ensures r.Success? ==> forall k :: 0 <= k < |r.value| ==>
      ParseMemento(MementoLines(Split(timemap, '\n'))[k], toUnix) == Success(r.value[k])
    ensures r.Failure? ==> exists k: nat ::
      && FirstFailureAt(MementoLines(Split(timemap, '\n')), line => ParseMemento(line, toUnix), k)
      && ParseMemento(MementoLines(Split(timemap, '\n'))[k], toUnix) == Failure(r.error)
  {
    ParseAll(MementoLines(Split(timemap, '\n')), line => ParseMemento(line, toUnix))
  }

  /** The Unix times of a snapshot list, `mementos.map(m => m.date.unix())`. */
  function Times(snaps: seq<Snapshot>): (ts: seq<int>)
    ensures |ts| == |snaps|
    ensures forall k :: 0 <= k < |snaps| ==> ts[k] == snaps[k].time
  {
    seq(|snaps|, k requires 0 <= k < |snaps| => snaps[k].time)
  }

  /** A timemap entry the parser can read back: a non-empty URL free of `>`,
      quotes and newlines, and a non-empty date free of quotes and newlines. */
  predicate Renderable(url: string, datetime: string) {
    && |url| > 0 && '>' !in url && '"' !in url && '\n' !in url
    && |datetime| > 0 && '"' !in datetime && '\n' !in datetime
  }

  /** The link-format line the Wayback Machine serves for one memento. */
  function FormatLine(url: string, datetime: string): string {
    "<" + url + ">" + LinkParams + "\"" + datetime + "\","
  }

  /** What a formatted line holds between the URL and the date's opening quote. */
  const LinkParams: string := "; rel=\"memento\"; datetime="

  /** Between the URL and the date of a formatted line, quotes sit only around `memento`. */
  lemma SeparatorQuotes()
    ensures forall o :: 0 <= o < |LinkParams| && LinkParams[o] == '"' ==> o == 6 || o == 14
  {
    var t := LinkParams;
    assert t == "; rel=" + "\"" + "memento" + "\"" + "; datetime=";
    forall o | 0 <= o < |t| && o != 6 && o != 14
      ensures t[o] != '"'
    {
      if o < 6 {
        assert t[o] in "; rel=";
      } else if o < 14 {
        assert t[o] in "memento";
      } else {
        assert t[o] in "; datetime=";
      }
    }
  }

  /** A literal does not occur where one of its characters is missing. */
  lemma Mismatch(s: string, lit: string, bounded: bool, i: nat, j: nat)
    requires j < |lit| && i + j < |s|
    requires s[i + j] != lit[j]
    ensures !Occurs(s, lit, bounded, i)
  {
    if i + |lit| <= |s| {
      assert s[i..i + |lit|][j] == s[i + j];
    }
  }

  /** In a formatted line, the `datetime="` of the date is the leftmost one. */
  lemma NoEarlierDatetime(url: string, datetime: string)
    requires Renderable(url, datetime)
    ensures var line := FormatLine(url, datetime);
      forall i: nat :: i < |url| + 19 ==> !Occurs(line, DatetimeOpen, true, i)
  {
    var line := FormatLine(url, datetime);
    var t := LinkParams;
    SeparatorQuotes();
    forall i: nat | i < |url| + 19
      ensures !Occurs(line, DatetimeOpen, true, i)
    {
      if i + 9 <= |url| {
        assert line[i + 9] == url[i + 8];
        Mismatch(line, DatetimeOpen, true, i, 9);
      } else if i + 9 == |url| + 1 {
        Mismatch(line, DatetimeOpen, true, i, 9);
      } else if i + 9 == |url| + 8 {
        assert line[i + 2] == '>';
        Mismatch(line, DatetimeOpen, true, i, 2);
      } else if i + 9 == |url| + 16 {
        assert line[i] == t[5];
        Mismatch(line, DatetimeOpen, true, i, 0);
      } else {
        assert line[i + 9] == t[i + 9 - |url| - 2];
        Mismatch(line, DatetimeOpen, true, i, 9);
      }
    }
  }

  /** A formatted line, cut where the parser's two literals sit. */
  lemma FormatLineShape(url: string, datetime: string)
    ensures FormatLine(url, datetime) == "<" + url + ">; " + MementoRel + "; " + DatetimeOpen + datetime + "\","
  {
    LinkParamsSplit();
    var x := ">; " + MementoRel + "; " + DatetimeOpen;
    assert FormatLine(url, datetime) == "<" + url + x + datetime + "\",";
  }

  /** The link parameters hold the two literals the parser looks for. */
  lemma LinkParamsSplit()
    ensures ">" + LinkParams + "\"" == ">; " + MementoRel + "; " + DatetimeOpen
  {
  }

  /** A formatted line carries the `rel="memento"` tag. */
  lemma FormatLineIsMementoLine(url: string, datetime: string)
    ensures IsMementoLine(FormatLine(url, datetime))
  {
    var line := FormatLine(url, datetime);
    FormatLineShape(url, datetime);
    assert line[|url| + 4..|url| + 17] == MementoRel;
    assert Occurs(line, MementoRel, true, |url| + 4);
  }

  /** The URL group of a formatted line is its URL. */
  lemma FormatLineUrl(url: string, datetime: string)
    requires Renderable(url, datetime)
    ensures FirstCapture(FormatLine(url, datetime), "<", '>', false) == Some(url)
  {
    var line := FormatLine(url, datetime);
    var rest := ">; rel=\"memento\"; " + DatetimeOpen + datetime + "\",";
    assert line == "<" + url + rest;
    assert line[1..|url| + 1] == url;
    assert line[|url| + 1] == '>';
    assert Captures(line, "<", '>', false, 0, |url| + 1);
    FirstCaptureAt(line, "<", '>', false, 0, |url| + 1);
  }

  /** The date group of a formatted line is its date. */
  lemma FormatLineDatetime(url: string, datetime: string)
    requires Renderable(url, datetime)
    ensures FirstCapture(FormatLine(url, datetime), DatetimeOpen, '"', true) == Some(datetime)
  {
    var line := FormatLine(url, datetime);
    var p := |url| + 19;
    var head := "<" + url + ">; " + MementoRel + "; ";
    FormatLineShape(url, datetime);
    assert line == head + DatetimeOpen + datetime + "\",";
    assert |head| == p;
    assert line[p..p + 10] == DatetimeOpen;
    assert line[p + 10..p + 10 + |datetime|] == datetime;
    assert line[p + 10 + |datetime|] == '"';
    assert Captures(line, DatetimeOpen, '"', true, p, p + 10 + |datetime|);
    NoEarlierDatetime(url, datetime);
    FirstCaptureAt(line, DatetimeOpen, '"', true, p, p + 10 + |datetime|);
  }

  /** Parsing a formatted line gives back its URL and date. */
  lemma ParseFormatLine(url: string, datetime: string, toUnix: string -> int)
    requires Renderable(url, datetime)
    ensures IsMementoLine(FormatLine(url, datetime))
    ensures ParseMemento(FormatLine(url, datetime), toUnix) == Success(Snapshot(url, datetime, toUnix(datetime)))
  {
    FormatLineIsMementoLine(url, datetime);
    FormatLineUrl(url, datetime);
    FormatLineDatetime(url, datetime);
  }

  /** A timemap made of formatted lines, one per line. */
  function RenderTimemap(entries: seq<(string, string)>): string
    requires |entries| >= 1
  {
    Join(seq(|entries|, k requires 0 <= k < |entries| => FormatLine(entries[k].0, entries[k].1)), '\n')
  }

  /** A list made only of memento lines passes the filter unchanged. */
  lemma {:induction false} MementoLinesKeepsAll(lines: seq<string>)
    requires forall k :: 0 <= k < |lines| ==> IsMementoLine(lines[k])
    ensures MementoLines(lines) == lines
    decreases |lines|
  {
    if |lines| > 0 {
      MementoLinesKeepsAll(lines[1..]);
      assert lines == [lines[0]] + lines[1..];
    }
  }

  /** A formatted line is one line. */
  lemma FormatLineHasNoNewline(url: string, datetime: string)
    requires Renderable(url, datetime)
    ensures '\n' !in FormatLine(url, datetime)
  {
    var line := FormatLine(url, datetime);
    var n := |url| + 2 + |LinkParams|;
    assert '\n' !in LinkParams;
    forall k | 0 <= k < |line|
      ensures line[k] != '\n'
    {
      if 1 <= k <= |url| {
        assert line[k] == url[k - 1];
      } else if |url| + 2 <= k < n {
        assert line[k] == LinkParams[k - |url| - 2];
      } else if n + 1 <= k < n + 1 + |datetime| {
        assert line[k] == datetime[k - n - 1];
      }
    }
  }

  /** Parsing lines that each parse gives exactly the parsed snapshots. */
  lemma {:induction false} ParseAllSucceeds(lines: seq<string>, expected: seq<Snapshot>, construct: string -> Result<Snapshot, ParseError>)
    requires |lines| == |expected|
    requires forall k :: 0 <= k < |lines| ==> construct(lines[k]) == Success(expected[k])
    ensures ParseAll(lines, construct) == Success(expected)
    decreases |lines|
  {
    if |lines| > 0 {
      assert construct(lines[0]) == Success(expected[0]);
      ParseAllSucceeds(lines[1..], expected[1..], construct);
      assert expected == [expected[0]] + expected[1..];
    }
  }

  /** Reading a rendered timemap gives back one snapshot per entry, in order. */
  lemma ParseRenderedTimemap(entries: seq<(string, string)>, toUnix: string -> int)
    requires |entries| >= 1
    requires forall k :: 0 <= k < |entries| ==> Renderable(entries[k].0, entries[k].1)
    ensures ParseTimemap(RenderTimemap(entries), toUnix)
      == Success(seq(|entries|, k requires 0 <= k < |entries| =>
                     Snapshot(entries[k].0, entries[k].1, toUnix(entries[k].1))))
  {
    var lines := seq(|entries|, k requires 0 <= k < |entries| => FormatLine(entries[k].0, entries[k].1));
    var expected := seq(|entries|, k requires 0 <= k < |entries| =>
                        Snapshot(entries[k].0, entries[k].1, toUnix(entries[k].1)));
    forall k | 0 <= k < |lines|
      ensures '\n' !in lines[k]
      ensures IsMementoLine(lines[k])
      ensures ParseMemento(lines[k], toUnix) == Success(expected[k])
    {
      FormatLineHasNoNewline(entries[k].0, entries[k].1);
      ParseFormatLine(entries[k].0, entries[k].1, toUnix);
    }
    assert RenderTimemap(entries) == Join(lines, '\n');
    SplitJoin(lines, '\n');
    MementoLinesKeepsAll(lines);
    ParseAllSucceeds(lines, expected, line => ParseMemento(line, toUnix));
  }
}
