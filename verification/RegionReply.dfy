/**
 A repeater's reply to the `region` command: one line a region, indented by its
 depth, a home mark and a flood mark at its end. The parser against the
 firmware's printer, on whole replies and on replies cut by its fixed buffer.
 */
module RegionReply {
  import opened Bytes
  import opened Wrappers

  datatype Entry = Entry(name: string, depth: byte, home: bool, flood: bool)

  predicate EndsWith(s: string, mark: string) {
    |s| >= |mark| && s[|s| - |mark|..] == mark
  }

  function Stripped(s: string, mark: string): string {
    if EndsWith(s, mark) then s[..|s| - |mark|] else s
  }

  function Spaces(n: nat): (s: string)
    ensures |s| == n && forall i :: 0 <= i < n ==> s[i] == ' '
  {
    seq(n, i => ' ')
  }

  function LeadingSpaces(s: string): (n: nat)
    ensures n <= |s|
    ensures forall i :: 0 <= i < n ==> s[i] == ' '
    ensures n < |s| ==> s[n] != ' '
  {
    if s == "" || s[0] != ' ' then 0 else 1 + LeadingSpaces(s[1..])
  }

  function WithoutReturns(s: string): (r: string)
    ensures |r| <= |s| && s[..|r|] == r
    ensures r != "" ==> r[|r| - 1] != '\r'
  {
    if s != "" && s[|s| - 1] == '\r' then WithoutReturns(s[..|s| - 1]) else s
  }

  /** Name and marks from what follows the indent; nothing for a blank line. The
      depth is one byte, as the cast in the program makes it. */
  function ParseBody(indent: nat, body: string): Option<Entry> {
    if body == "" then None
    else
      var marked := Stripped(body, " F");
      Some(Entry(Stripped(marked, "^"), indent % 256, EndsWith(marked, "^"), EndsWith(body, " F")))
  }

  function ParseLine(line: string): Option<Entry> {
    var indent := LeadingSpaces(line);
    ParseBody(indent, WithoutReturns(line[indent..]))
  }

  /** Where the first line break of `s` is, or its length. */
  function LineEnd(s: string): (e: nat)
    ensures e <= |s|
    ensures '\n' !in s[..e]
    ensures e < |s| ==> s[e] == '\n'
  {
    if s == "" || s[0] == '\n' then 0 else 1 + LineEnd(s[1..])
  }

  function ParseReply(text: string): seq<Entry>
    decreases |text|
  {
    if text == "" then []
    else
      var e := LineEnd(text);
      var first := ParseLine(text[..e]);
      (if first.Some? then [first.value] else []) + if e < |text| then ParseReply(text[e + 1..]) else []
  }

  // ----- the firmware's printer

  function Body(e: Entry): string {
    e.name + (if e.home then "^" else "") + if e.flood then " F" else ""
  }

  function PrintLine(e: Entry): string {
    Spaces(e.depth) + Body(e)
  }

  function PrintReply(es: seq<Entry>): string {
    if es == [] then "" else PrintLine(es[0]) + "\n" + PrintReply(es[1..])
  }

  /** Names that cannot be mistaken for a mark, an indent or nothing at all. */
  predicate Readable(e: Entry) {
    && Body(e) != "" && Body(e)[0] != ' '
    && (!e.home ==> !EndsWith(e.name, "^"))
    && (!e.home && !e.flood ==> !EndsWith(e.name, " F") && !EndsWith(e.name, "\r"))
  }

  lemma {:induction false} IndentCounted(n: nat, body: string)
    ensures LeadingSpaces(Spaces(n) + body) == n + LeadingSpaces(body)
  {
    if n > 0 {
      IndentCounted(n - 1, body);
      assert (Spaces(n) + body)[1..] == Spaces(n - 1) + body;
    } else {
      assert Spaces(0) + body == body;
    }
  }

  lemma StripMark(name: string, mark: string)
    ensures EndsWith(name + mark, mark) && Stripped(name + mark, mark) == name
  {
    assert (name + mark)[|name|..] == mark;
  }

  lemma ReturnsKept(s: string)
    ensures WithoutReturns(s) == s <==> !EndsWith(s, "\r")
  {
  }

  /** Parsing `body` gives the name and marks of `e`. */
  predicate MarksRead(e: Entry, body: string) {
    var marked := Stripped(body, " F");
    Stripped(marked, "^") == e.name && EndsWith(marked, "^") == e.home && EndsWith(body, " F") == e.flood
  }

  /** The marks of a printed body are read back as printed exactly when the name
      does not end like one. */
  lemma MarksReadBack(e: Entry)
    ensures MarksRead(e, Body(e))
        <==> (!e.home ==> !EndsWith(e.name, "^")) && (!e.home && !e.flood ==> !EndsWith(e.name, " F"))
  {
    var mark := if e.home then "^" else "";
    StripMark(e.name, "^");
    assert e.name + "" == e.name;
    if e.flood {
      StripMark(e.name + mark, " F");
    } else {
      assert Body(e) == e.name + mark;
      if e.home {
        assert Body(e)[|e.name|] == '^';
      }
    }
  }

  lemma PartsOfBody(body: string)
    ensures var marked := Stripped(body, " F");
            |Stripped(marked, "^")| + (if EndsWith(marked, "^") then 1 else 0) + (if EndsWith(body, " F") then 2 else 0)
            == |body|
  {
  }

  lemma ReadableEndsWell(e: Entry)
    requires Readable(e)
    ensures !EndsWith(Body(e), "\r")
  {
    var body := Body(e);
    if e.flood {
      assert body[|body| - 1] == 'F';
    } else if e.home {
      assert body[|body| - 1] == '^';
    } else {
      assert body == e.name;
    }
  }

  lemma ParsedIs(e: Entry, body: string)
    requires body != ""
    ensures ParseBody(e.depth, body) == Some(e) <==> MarksRead(e, body)
  {
    assert e.depth % 256 == e.depth;
  }

  lemma ReadableReads(e: Entry)
    requires Readable(e)
    ensures ParseLine(PrintLine(e)) == Some(e)
  {
    var line, body := PrintLine(e), Body(e);
    IndentCounted(e.depth, body);
    ReadableEndsWell(e);
    ReturnsKept(body);
    assert line[e.depth..] == body;
    MarksReadBack(e);
    ParsedIs(e, body);
  }

  /** A line read back as printed lost nothing on the way. */
  lemma NothingTrimmed(e: Entry)
    ensures ParseLine(PrintLine(e)) == Some(e) ==> LeadingSpaces(Body(e)) == 0 && WithoutReturns(Body(e)) == Body(e)
  {
    if ParseLine(PrintLine(e)) == Some(e) {
      var n := LeadingSpaces(PrintLine(e));
      IndentCounted(e.depth, Body(e));
      var rest := PrintLine(e)[n..];
      assert rest == Body(e)[n - e.depth..];
      PartsOfBody(WithoutReturns(rest));
      assert |WithoutReturns(rest)| == |Body(e)|;
    }
  }

  /** A printed line is read back exactly when its name cannot be mistaken for an
      indent or a mark; otherwise the reader sees another entry, or none. */
  lemma LineRoundTrip(e: Entry)
    ensures ParseLine(PrintLine(e)) == Some(e) <==> Readable(e)
  {
    if Readable(e) {
      ReadableReads(e);
    } else {
      NothingTrimmed(e);
      IndentCounted(e.depth, Body(e));
      assert PrintLine(e)[e.depth..] == Body(e);
      ReturnsKept(Body(e));
      MarksReadBack(e);
    }
  }

  /** A reply whose lines end in carriage returns reads the same. */
  lemma ReturnIgnored(line: string)
    ensures ParseLine(line + "\r") == ParseLine(line)
  {
    var n := LeadingSpaces(line);
    var longer := line + "\r";
    assert forall i :: 0 <= i < |line| ==> longer[i] == line[i];
    assert longer[|line|] == '\r';
    assert LeadingSpaces(longer) == n;
    assert longer[n..] == line[n..] + "\r";
    assert (line[n..] + "\r")[..|line| - n] == line[n..];
  }

  /** What a line of the reply stands for: leading spaces are the depth, modulo 256; a
      trailing " F" allows flooding, and a "^" before that marks the home region. */
  lemma ParseLineMeans(indent: nat, name: string, home: bool, flood: bool)
    requires name != "" && name[0] != ' ' && name[|name| - 1] !in {'^', 'F', '\r'}
    ensures ParseLine(Spaces(indent) + (name + (if home then "^" else "") + (if flood then " F" else "")))
         == Some(Entry(name, indent % 256, home, flood))
  {
    var e := Entry(name, indent % 256, home, flood);
    var body := Body(e);
    var line := Spaces(indent) + body;
    assert body == name + (if home then "^" else "") + (if flood then " F" else "");
    assert body[0] == name[0];
    assert Readable(e);
    IndentCounted(indent, body);
    ReadableEndsWell(e);
    ReturnsKept(body);
    assert line[indent..] == body;
    MarksReadBack(e);
  }

  // ----- whole replies

  predicate OneLine(e: Entry) {
    '\n' !in e.name
  }

  lemma {:induction false} LineEndAt(line: string, rest: string)
    requires '\n' !in line
    ensures LineEnd(line + "\n" + rest) == |line|
    ensures LineEnd(line) == |line|
  {
    if line == "" {
      assert line + "\n" + rest == "\n" + rest;
    } else {
      assert (line + "\n" + rest)[1..] == line[1..] + "\n" + rest;
      LineEndAt(line[1..], rest);
    }
  }

  lemma PrintedLineHasNoBreak(e: Entry)
    requires OneLine(e)
    ensures '\n' !in PrintLine(e)
  {
  }

  /** Reading takes a reply line by line. */
  lemma ParseFirstLine(e: Entry, rest: string)
    requires OneLine(e)
    ensures var first := ParseLine(PrintLine(e));
            ParseReply(PrintLine(e) + "\n" + rest) == (if first.Some? then [first.value] else []) + ParseReply(rest)
  {
    var line := PrintLine(e);
    var text := line + "\n" + rest;
    PrintedLineHasNoBreak(e);
    LineEndAt(line, rest);
    assert text[..|line|] == line && text[|line| + 1..] == rest;
  }

  lemma ReadNamesAreOneLine(line: string)
    requires '\n' !in line && ParseLine(line).Some?
    ensures OneLine(ParseLine(line).value)
  {
    var body := WithoutReturns(line[LeadingSpaces(line)..]);
    var marked := Stripped(body, " F");
    assert Stripped(marked, "^") <= marked && marked <= body && body <= line[LeadingSpaces(line)..];
  }

  lemma {:induction false} AllReadNamesAreOneLine(text: string)
    ensures forall e :: e in ParseReply(text) ==> OneLine(e)
    decreases |text|
  {
    if text != "" {
      var e := LineEnd(text);
      if ParseLine(text[..e]).Some? {
        ReadNamesAreOneLine(text[..e]);
      }
      if e < |text| {
        AllReadNamesAreOneLine(text[e + 1..]);
      }
    }
  }

  ghost predicate AllReadable(es: seq<Entry>) {
    forall e :: e in es ==> Readable(e)
  }

  ghost predicate AllOneLine(es: seq<Entry>) {
    forall e :: e in es ==> OneLine(e)
  }

  lemma HeadAndTail(first: Option<Entry>, rest: seq<Entry>, es: seq<Entry>)
    requires es != [] && |rest| < |es|
    ensures (if first.Some? then [first.value] else []) + rest == es <==> first == Some(es[0]) && rest == es[1..]
    ensures AllReadable(es) <==> Readable(es[0]) && AllReadable(es[1..])
  {
    assert es == [es[0]] + es[1..];
  }

  lemma {:induction false} NoMoreThanPrinted(es: seq<Entry>)
    requires AllOneLine(es)
    ensures |ParseReply(PrintReply(es))| <= |es|
    ensures ParseReply(PrintReply(es)) == es <==> AllReadable(es)
  {
    if es != [] {
      ParseFirstLine(es[0], PrintReply(es[1..]));
      NoMoreThanPrinted(es[1..]);
      LineRoundTrip(es[0]);
      HeadAndTail(ParseLine(PrintLine(es[0])), ParseReply(PrintReply(es[1..])), es);
    }
  }

  /** A whole reply is read back, entry for entry, exactly when every name fits on
      one line and reads as itself. */
  lemma ReplyRoundTrip(es: seq<Entry>)
    ensures ParseReply(PrintReply(es)) == es <==> AllReadable(es) && AllOneLine(es)
  {
    if AllOneLine(es) {
      NoMoreThanPrinted(es);
    } else {
      AllReadNamesAreOneLine(PrintReply(es));
    }
  }

  /** How many lines of the reply lie whole within its first `n` characters. */
  function WholeLines(es: seq<Entry>, n: nat): (k: nat)
    ensures k <= |es|
  {
    if es == [] || n <= |PrintLine(es[0])| then 0 else 1 + WholeLines(es[1..], n - |PrintLine(es[0])| - 1)
  }

  /** What is read starts with the entries of the `k` whole lines and has at most
      one more. */
  ghost predicate ReadsWhole(read: seq<Entry>, es: seq<Entry>, k: nat)
    requires k <= |es|
  {
    k <= |read| <= k + 1 && read[..k] == es[..k]
  }

  lemma OneMoreLine(rest: seq<Entry>, es: seq<Entry>, before: nat, read: seq<Entry>, k: nat)
    requires k == before + 1 <= |es| && ReadsWhole(rest, es[1..], before) && read == [es[0]] + rest
    ensures ReadsWhole(read, es, k)
  {
    assert read[..k] == [es[0]] + rest[..before];
    assert es[..k] == [es[0]] + es[1..][..before];
  }

  lemma PieceOfLine(line: string)
    requires '\n' !in line
    ensures |ParseReply(line)| <= 1
  {
    LineEndAt(line, "");
  }

  /** A reply cut anywhere by the firmware's buffer still gives every whole line's
      entry, and at most one more made of the line that was cut. */
  lemma {:induction false} CutReply(es: seq<Entry>, n: nat, read: seq<Entry>, k: nat)
    requires AllReadable(es) && AllOneLine(es)
    requires n <= |PrintReply(es)| && read == ParseReply(PrintReply(es)[..n]) && k == WholeLines(es, n)
    ensures ReadsWhole(read, es, k)
    decreases |es|
  {
    if k == 0 {
      CutInFirstLine(es, n, read);
    } else {
      var m := n - |PrintLine(es[0])| - 1;
      var rest := CutAfterFirstLine(es, n, m);
      CutReply(es[1..], m, rest, k - 1);
      OneMoreLine(rest, es, k - 1, read, k);
    }
  }

  lemma CutInFirstLine(es: seq<Entry>, n: nat, read: seq<Entry>)
    requires AllOneLine(es) && WholeLines(es, n) == 0
    requires n <= |PrintReply(es)| && read == ParseReply(PrintReply(es)[..n])
    ensures |read| <= 1
  {
    if es != [] {
      PrintedLineHasNoBreak(es[0]);
      assert PrintReply(es)[..n] == PrintLine(es[0])[..n];
      PieceOfLine(PrintLine(es[0])[..n]);
    }
  }

  lemma CutAfterFirstLine(es: seq<Entry>, n: nat, m: nat) returns (rest: seq<Entry>)
    requires es != [] && Readable(es[0]) && OneLine(es[0])
    requires n == |PrintLine(es[0])| + 1 + m && n <= |PrintReply(es)|
    ensures m <= |PrintReply(es[1..])| && rest == ParseReply(PrintReply(es[1..])[..m])
    ensures ParseReply(PrintReply(es)[..n]) == [es[0]] + rest
  {
    var line, after := PrintLine(es[0]), PrintReply(es[1..]);
    assert PrintReply(es)[..n] == line + "\n" + after[..m];
    ParseFirstLine(es[0], after[..m]);
    LineRoundTrip(es[0]);
    rest := ParseReply(after[..m]);
  }
}
