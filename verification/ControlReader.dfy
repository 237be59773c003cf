/**
 The reader of control-port replies: lines of a three-digit code, a separator and a text, where
 the separator says whether the reply ends, goes on, or goes on behind a block of data lines.
 */
module ControlReaders {

  datatype Error =
    | Eof
    | EofInData
    | Malformed(line: string)
    | NotANumber(line: string)
    | Refused(code: nat, text: string)
    | BadSeparator(line: string)

  /** The lines of a reply or of a data block, or an error; and what is left of the stream. */
  datatype Outcome =
    | Got(lines: seq<string>, stream: string)
    | Failed(error: Error, stream: string)

  // ------------------------------------------------------------ lines of a stream

  /** The length of the first line with its line feed, if it has one. */
  function LineEnd(s: string): (n: nat)
    ensures n <= |s| && (s != [] ==> n > 0)
    ensures forall k :: 0 <= k < n - 1 ==> s[k] != '\n'
    ensures n < |s| ==> n > 0 && s[n - 1] == '\n'
  {
    if s == [] then 0 else if s[0] == '\n' then 1 else 1 + LineEnd(s[1..])
  }

  /** Without the carriage returns and line feeds at its end. */
  function RStrip(s: string): (r: string)
    ensures r <= s && forall k :: |r| <= k < |s| ==> s[k] == '\r' || s[k] == '\n'
    ensures r != [] ==> r[|r| - 1] != '\r' && r[|r| - 1] != '\n'
  {
    if s != [] && (s[|s| - 1] == '\r' || s[|s| - 1] == '\n') then RStrip(s[..|s| - 1]) else s
  }

  function Line(s: string): string { RStrip(s[..LineEnd(s)]) }

  function Rest(s: string): string { s[LineEnd(s)..] }

  /** What a character is to `isdigit` and to `int`: superscripts, for one, are digits but of no number. */
  datatype Digit = Decimal(value: nat) | OtherDigit | NoDigit

  /** The character table that the strings are judged by. */
  type Alphabet = char -> Digit

  function Char(d: nat): char
    requires d < 10
  {
    ('0' as int + d) as char
  }

  lemma Digits()
    ensures [Char(0), Char(1), Char(2), Char(3), Char(4)] == "01234"
    ensures [Char(5), Char(6), Char(7), Char(8), Char(9)] == "56789"
  {
  }

  /** Any table of digits has the ASCII ones. */
  ghost predicate Ascii(u: Alphabet) {
    forall d: nat {:trigger Char(d)} :: d < 10 ==> u(Char(d)) == Decimal(d)
  }

  /** The line starts with three digits. */
  predicate HasCode(u: Alphabet, line: string) {
    |line| >= 3 && !u(line[0]).NoDigit? && !u(line[1]).NoDigit? && !u(line[2]).NoDigit?
  }

  /** And those make a number. */
  predicate HasNumber(u: Alphabet, line: string) {
    |line| >= 3 && u(line[0]).Decimal? && u(line[1]).Decimal? && u(line[2]).Decimal?
  }

  function Code(u: Alphabet, line: string): nat
    requires HasNumber(u, line)
  {
    100 * u(line[0]).value + 10 * u(line[1]).value + u(line[2]).value
  }

  function Separator(line: string): char { if |line| >= 4 then line[3] else ' ' }

  function Text(line: string): string { if |line| > 4 then line[4..] else "" }

  // ------------------------------------------------------------ reading

  /** The inner loop: data lines up to a single dot. */
  function ReadData(s: string, lines: seq<string>): (r: Outcome)
    ensures |r.stream| <= |s|
    decreases |s|
  {
    if s == [] then Failed(EofInData, s)
    else if Line(s) == "." then Got(lines, Rest(s))
    else ReadData(Rest(s), lines + [Unstuffed(Line(s))])
  }

  function Unstuffed(text: string): string { if ".." <= text then text[1..] else text }

  /** The outer loop, with the lines read so far. */
  function Read(u: Alphabet, s: string, lines: seq<string>): Outcome
    decreases |s|
  {
    if s == [] then Failed(Eof, s)
    else
      var line, rest := Line(s), Rest(s);
      if !HasCode(u, line) then Failed(Malformed(line), rest)
      else if !HasNumber(u, line) then Failed(NotANumber(line), rest)
      else if Code(u, line) >= 400 then Failed(Refused(Code(u, line), Text(line)), rest)
      else if Separator(line) == '+' then
        var data := ReadData(rest, lines + [Text(line)]);
        if data.Failed? then data else Read(u, data.stream, data.lines)
      else if Separator(line) == ' ' then Got(lines + [Text(line)], rest)
      else if Separator(line) == '-' then Read(u, rest, lines + [Text(line)])
      else Failed(BadSeparator(line), rest)
  }

  /** A connection whose stream is what has not been read. */
  class ControlReader {
    const alphabet: Alphabet
    var stream: string

    constructor (alphabet: Alphabet, stream: string)
      ensures this.alphabet == alphabet && this.stream == stream
    {
      this.alphabet, this.stream := alphabet, stream;
    }

    /** `readline`: empty only at the end of the stream. */
    method ReadLine() returns (raw: string)
      modifies this`stream
      ensures raw == old(stream[..LineEnd(stream)]) && stream == old(Rest(stream))
    {
      var n := LineEnd(stream);
      raw, stream := stream[..n], stream[n..];
    }

    method ReadBlock(lines: seq<string>) returns (r: Outcome)
      modifies this`stream
      ensures r == ReadData(old(stream), lines) && stream == r.stream
    {
      var got := lines;
      while true
        invariant ReadData(stream, got) == ReadData(old(stream), lines)
        decreases |stream|
      {
        ghost var was := stream;
        var chunk := ReadLine();
        if chunk == [] {
          return Failed(EofInData, stream);
        }
        var text := RStrip(chunk);
        if text == "." {
          return Got(got, stream);
        }
        if ".." <= text {
          text := text[1..];
        }
        got := got + [text];
      }
    }

    /** `_onionrelay_control_command` behind the sending of the command. */
    method Command() returns (r: Outcome)
      modifies this`stream
      ensures r == Read(alphabet, old(stream), []) && stream == r.stream
    {
      var lines: seq<string> := [];
      while true
        invariant Read(alphabet, stream, lines) == Read(alphabet, old(stream), [])
        decreases |stream|
      {
        var raw := ReadLine();
        if raw == [] {
          return Failed(Eof, stream);
        }
        var line := RStrip(raw);
        if !HasCode(alphabet, line) {
          return Failed(Malformed(line), stream);
        }
        if !HasNumber(alphabet, line) {
          return Failed(NotANumber(line), stream);
        }
        var code, sep, rest := Code(alphabet, line), Separator(line), Text(line);
        if code >= 400 {
          return Failed(Refused(code, rest), stream);
        }
        if sep == '+' {
          r := ReadBlock(lines + [rest]);
          if r.Failed? {
            return;
          }
          lines := r.lines;
          continue;
        }
        lines := lines + [rest];
        if sep == ' ' {
          return Got(lines, stream);
        }
        if sep != '-' {
          return Failed(BadSeparator(line), stream);
        }
      }
    }
  }

  // ------------------------------------------------------------ well-formed replies

  /** A part of a reply before its end. */
  datatype Part =
    | Mid(code: nat, text: string)
    | Data(code: nat, text: string, data: seq<string>)

  datatype Reply = Reply(parts: seq<Part>, code: nat, text: string)

  predicate Clean(t: string) { forall i :: 0 <= i < |t| ==> t[i] != '\r' && t[i] != '\n' }

  predicate CleanAll(data: seq<string>) { forall i :: 0 <= i < |data| ==> Clean(data[i]) }

  predicate WellFormedPart(p: Part) {
    p.code < 400 && Clean(p.text) && (p.Data? ==> CleanAll(p.data))
  }

  predicate WellFormedParts(ps: seq<Part>) { forall i :: 0 <= i < |ps| ==> WellFormedPart(ps[i]) }

  predicate WellFormed(r: Reply) { WellFormedParts(r.parts) && r.code < 400 && Clean(r.text) }

  function Lines(r: Reply): seq<string> { PartLines(r.parts) + [r.text] }

  function LinesOf(p: Part): seq<string> { [p.text] + if p.Data? then p.data else [] }

  function PartLines(ps: seq<Part>): seq<string> {
    if ps == [] then [] else LinesOf(ps[0]) + PartLines(ps[1..])
  }

  function Head(code: nat, sep: char, text: string): string
    requires code < 1000
  {
    [Char(code / 100), Char(code / 10 % 10), Char(code % 10), sep] + text
  }

  function Stuffed(t: string): string { if "." <= t then "." + t else t }

  /** One line on the wire, before what follows it. */
  function Put(t: string, tail: string): string { t + ("\r\n" + tail) }

  function PutData(data: seq<string>, tail: string): string {
    if data == [] then Put(".", tail) else Put(Stuffed(data[0]), PutData(data[1..], tail))
  }

  function PutParts(ps: seq<Part>, tail: string): string
    requires WellFormedParts(ps)
  {
    if ps == [] then tail else PutPart(ps[0], PutParts(ps[1..], tail))
  }

  function PutPart(p: Part, tail: string): string
    requires WellFormedPart(p)
  {
    match p
    case Mid(code, text) => Put(Head(code, '-', text), tail)
    case Data(code, text, data) => Put(Head(code, '+', text), PutData(data, tail))
  }

  /** A reply on the wire, before what follows it. */
  function PutReply(r: Reply, tail: string): string
    requires WellFormed(r)
  {
    PutParts(r.parts, Put(Head(r.code, ' ', r.text), tail))
  }

  // ------------------------------------------------------------ what the reader makes of them

  lemma {:induction false} ReadsLine(t: string, tail: string)
    requires Clean(t)
    ensures Line(Put(t, tail)) == t && Rest(Put(t, tail)) == tail
  {
    LineEndOf(t, tail);
    assert Put(t, tail)[..|t| + 2] == t + "\r\n";
    assert (t + "\r\n")[..|t| + 1] == t + "\r" && (t + "\r")[..|t|] == t;
    assert RStrip(t) == t;
    assert RStrip(t + "\r") == RStrip(t);
  }

  lemma {:induction false} LineEndOf(t: string, tail: string)
    requires Clean(t)
    ensures LineEnd(Put(t, tail)) == |t| + 2
  {
    var s := Put(t, tail);
    if t == [] {
      assert s[1..] == "\n" + tail;
    } else {
      LineEndOf(t[1..], tail);
      assert s[1..] == Put(t[1..], tail);
    }
  }

  lemma HeadParts(u: Alphabet, code: nat, sep: char, text: string)
    requires Ascii(u) && code < 1000
    ensures var h := Head(code, sep, text);
      HasCode(u, h) && HasNumber(u, h) && Code(u, h) == code && Separator(h) == sep && Text(h) == text
    ensures Clean(text) && sep != '\r' && sep != '\n' ==> Clean(Head(code, sep, text))
  {
    assert u(Char(code / 100)) == Decimal(code / 100);
    assert u(Char(code / 10 % 10)) == Decimal(code / 10 % 10);
    assert u(Char(code % 10)) == Decimal(code % 10);
  }

  lemma DataStep(t: string, after: string, lines: seq<string>)
    requires Clean(t)
    ensures ReadData(Put(Stuffed(t), after), lines) == ReadData(after, lines + [t])
  {
    ReadsLine(Stuffed(t), after);
    assert Stuffed(t) != "." && Unstuffed(Stuffed(t)) == t;
  }

  lemma {:induction false} ReadsData(data: seq<string>, tail: string, lines: seq<string>)
    requires CleanAll(data)
    ensures ReadData(PutData(data, tail), lines) == Got(lines + data, tail)
  {
    if data == [] {
      ReadsLine(".", tail);
      assert lines + data == lines;
    } else {
      DataStep(data[0], PutData(data[1..], tail), lines);
      ReadsData(data[1..], tail, lines + [data[0]]);
      Regroup(lines, data);
    }
  }

  lemma Regroup(lines: seq<string>, data: seq<string>)
    requires data != []
    ensures lines + [data[0]] + data[1..] == lines + data
  {
  }

  lemma PartStep(u: Alphabet, p: Part, after: string, lines: seq<string>)
    requires Ascii(u) && WellFormedPart(p)
    ensures Read(u, PutPart(p, after), lines) == Read(u, after, lines + LinesOf(p))
  {
    match p
    case Mid(code, text) =>
      HeadParts(u, code, '-', text);
      ReadsLine(Head(code, '-', text), after);
      assert lines + LinesOf(p) == lines + [text];
    case Data(code, text, data) =>
      HeadParts(u, code, '+', text);
      ReadsLine(Head(code, '+', text), PutData(data, after));
      ReadsData(data, after, lines + [text]);
      assert lines + LinesOf(p) == lines + [text] + data;
  }

  lemma {:induction false} ReadsParts(u: Alphabet, ps: seq<Part>, tail: string, lines: seq<string>)
    requires Ascii(u) && WellFormedParts(ps)
    ensures Read(u, PutParts(ps, tail), lines) == Read(u, tail, lines + PartLines(ps))
  {
    if ps == [] {
      assert lines + PartLines(ps) == lines;
    } else {
      PartStep(u, ps[0], PutParts(ps[1..], tail), lines);
      ReadsParts(u, ps[1..], tail, lines + LinesOf(ps[0]));
      assert lines + LinesOf(ps[0]) + PartLines(ps[1..]) == lines + (LinesOf(ps[0]) + PartLines(ps[1..]));
    }
  }

  /** A well-formed reply is read back, and the stream is left where the next one begins. */
  lemma ReadsReply(u: Alphabet, r: Reply, tail: string)
    requires Ascii(u) && WellFormed(r)
    ensures Read(u, PutReply(r, tail), []) == Got(Lines(r), tail)
  {
    ReadsParts(u, r.parts, Put(Head(r.code, ' ', r.text), tail), []);
    HeadParts(u, r.code, ' ', r.text);
    ReadsLine(Head(r.code, ' ', r.text), tail);
    assert [] + PartLines(r.parts) == PartLines(r.parts);
  }

  function PutReplies(rs: seq<Reply>, tail: string): string
    requires forall i :: 0 <= i < |rs| ==> WellFormed(rs[i])
  {
    if rs == [] then tail else PutReply(rs[0], PutReplies(rs[1..], tail))
  }

  /** So is every sequence of replies, one command after the other. */
  method ReadReplies(reader: ControlReader, ghost rs: seq<Reply>, n: nat, ghost tail: string)
      returns (got: seq<seq<string>>)
    requires Ascii(reader.alphabet)
    requires |rs| == n && forall i :: 0 <= i < |rs| ==> WellFormed(rs[i])
    requires reader.stream == PutReplies(rs, tail)
    modifies reader`stream
    ensures |got| == n && reader.stream == tail
    ensures forall i :: 0 <= i < n ==> got[i] == Lines(rs[i])
  {
    got := [];
    assert rs[0..] == rs;
    while |got| < n
      invariant |got| <= n && reader.stream == PutReplies(rs[|got|..], tail)
      invariant forall i :: 0 <= i < |got| ==> got[i] == Lines(rs[i])
    {
      ghost var left := rs[|got|..];
      ReadsReply(reader.alphabet, left[0], PutReplies(left[1..], tail));
      var r := reader.Command();
      got := got + [r.lines];
    }
  }

  /** A refusal ends the reading at its first line, whatever follows. */
  lemma ReadsRefusal(u: Alphabet, ps: seq<Part>, code: nat, sep: char, text: string, tail: string)
    requires Ascii(u) && WellFormedParts(ps) && 400 <= code < 1000 && Clean(text) && sep != '\r' && sep != '\n'
    ensures Read(u, PutParts(ps, Put(Head(code, sep, text), tail)), []) == Failed(Refused(code, text), tail)
  {
    ReadsParts(u, ps, Put(Head(code, sep, text), tail), []);
    HeadParts(u, code, sep, text);
    ReadsLine(Head(code, sep, text), tail);
  }

  /** The line is not one of a reply, or of a reply that is refused. */
  ghost predicate Faulty(u: Alphabet, t: string, error: Error) {
    if |t| < 3 || u(t[0]).NoDigit? || u(t[1]).NoDigit? || u(t[2]).NoDigit? then error == Malformed(t)
    else if !u(t[0]).Decimal? || !u(t[1]).Decimal? || !u(t[2]).Decimal? then error == NotANumber(t)
    else
      var code := u(t[0]).value * 100 + u(t[1]).value * 10 + u(t[2]).value;
      if code >= 400 then error == Refused(code, if |t| < 4 then "" else t[4..])
      else |t| > 3 && t[3] != ' ' && t[3] != '-' && t[3] != '+' && error == BadSeparator(t)
  }

  /**
   Behind any well-formed parts, a line ends the reading with an error exactly when it has no code, a
   code that is no number or is refused, or another separator; and the error says which.
   */
  lemma FaultyLine(u: Alphabet, ps: seq<Part>, t: string, tail: string, error: Error)
    requires Ascii(u) && WellFormedParts(ps) && Clean(t) && Faulty(u, t, error)
    ensures Read(u, PutParts(ps, Put(t, tail)), []) == Failed(error, tail)
  {
    ReadsParts(u, ps, Put(t, tail), []);
    FaultyFirst(u, t, tail, [] + PartLines(ps), error);
  }

  lemma FaultyFirst(u: Alphabet, t: string, tail: string, lines: seq<string>, error: Error)
    requires Clean(t) && Faulty(u, t, error)
    ensures Read(u, Put(t, tail), lines) == Failed(error, tail)
  {
    ReadsLine(t, tail);
    FaultDecides(u, t, error);
  }

  lemma FaultDecides(u: Alphabet, t: string, error: Error)
    requires Faulty(u, t, error)
    ensures error ==
      if !HasCode(u, t) then Malformed(t)
      else if !HasNumber(u, t) then NotANumber(t)
      else if Code(u, t) >= 400 then Refused(Code(u, t), Text(t))
      else BadSeparator(t)
    ensures HasNumber(u, t) && Code(u, t) < 400 ==>
      Separator(t) != ' ' && Separator(t) != '-' && Separator(t) != '+'
  {
    assert |t| == 4 ==> t[4..] == "";
  }

  /** A code below 400, and one of the three separators or none. */
  ghost predicate SoundHead(u: Alphabet, t: string) {
    && |t| >= 3 && u(t[0]).Decimal? && u(t[1]).Decimal? && u(t[2]).Decimal?
    && u(t[0]).value * 100 + u(t[1]).value * 10 + u(t[2]).value < 400
    && (|t| == 3 || t[3] == ' ' || t[3] == '-' || t[3] == '+')
  }

  lemma SoundOrFaulty(u: Alphabet, t: string)
    ensures SoundHead(u, t) <==> forall error :: !Faulty(u, t, error)
  {
    if !SoundHead(u, t) {
      var error :=
        if !HasCode(u, t) then Malformed(t)
        else if !HasNumber(u, t) then NotANumber(t)
        else if Code(u, t) >= 400 then Refused(Code(u, t), if |t| < 4 then "" else t[4..])
        else BadSeparator(t);
      assert Faulty(u, t, error);
    }
  }

  /** Such a line is the last of a reply, one of several, or comes before data. */
  lemma SoundLine(u: Alphabet, ps: seq<Part>, t: string, tail: string)
    requires Ascii(u) && WellFormedParts(ps) && Clean(t) && SoundHead(u, t)
    ensures var r, lines := Read(u, PutParts(ps, Put(t, tail)), []), PartLines(ps) + [if |t| < 4 then "" else t[4..]];
      if |t| == 3 || t[3] == ' ' then r == Got(lines, tail)
      else if t[3] == '-' then r == Read(u, tail, lines)
      else var data := ReadData(tail, lines); r == if data.Failed? then data else Read(u, data.stream, data.lines)
  {
    ReadsParts(u, ps, Put(t, tail), []);
    assert [] + PartLines(ps) == PartLines(ps);
    ReadsLine(t, tail);
    assert Text(t) == if |t| < 4 then "" else t[4..];
  }

  /** A line may end in any number of carriage returns before its line feed. */
  lemma {:induction false} LineEndings(t: string, cr: string, tail: string)
    requires Clean(t) && forall i :: 0 <= i < |cr| ==> cr[i] == '\r'
    ensures Line(t + cr + "\n" + tail) == t && Rest(t + cr + "\n" + tail) == tail
  {
    var s, n := t + cr + "\n" + tail, |t| + |cr| + 1;
    assert s[n - 1] == '\n' && forall k :: 0 <= k < n - 1 ==> s[k] != '\n';
    assert LineEnd(s) == n;
    assert s[..n] == t + cr + "\n" && s[n..] == tail;
    var r := RStrip(s[..n]);
    assert t != [] ==> s[..n][|t| - 1] == t[|t| - 1];
    assert forall k :: |t| <= k < n ==> s[..n][k] == '\r' || s[..n][k] == '\n';
    assert r != [] ==> r[|r| - 1] == s[..n][|r| - 1];
    assert |r| == |t|;
    assert r == s[..n][..|t|] == t;
  }

  // ------------------------------------------------------------ replies cut off by the end of the stream

  function Min(a: nat, b: nat): nat { if a < b then a else b }

  /** How much of the wire a part takes. */
  function Size(p: Part): nat
    requires WellFormedPart(p)
  {
    |PutPart(p, "")|
  }

  /**
   The cut at `k` is taken for a whole reply: it leaves exactly the three digits of some line before
   the last, or those of the last line with any part of what follows them.
   */
  predicate Mistaken(ps: seq<Part>, k: nat)
    requires WellFormedParts(ps)
  {
    if ps == [] then k >= 3 else k == 3 || (k >= Size(ps[0]) && Mistaken(ps[1..], k - Size(ps[0])))
  }

  /** The cut leaves one or two of the three digits of a line. */
  predicate Stub(ps: seq<Part>, k: nat)
    requires WellFormedParts(ps)
  {
    k == 1 || k == 2 || (ps != [] && k >= Size(ps[0]) && Stub(ps[1..], k - Size(ps[0])))
  }

  /** The cut leaves a single dot of a line of data, which ends the data for the reader. */
  predicate DotLeft(data: seq<string>, k: nat) {
    var t := if data == [] then "." else Stuffed(data[0]);
    if k < |t| + 2 then "." <= t && (k == 1 || (k == 2 && t == "."))
    else data != [] && DotLeft(data[1..], k - (|t| + 2))
  }

  /** The end of the stream comes where the reader expects data. */
  predicate InBlock(p: Part, k: nat) {
    p.Data? && k >= 4 && (k < |p.text| + 6 || !DotLeft(p.data, k - (|p.text| + 6)))
  }

  predicate InSomeBlock(ps: seq<Part>, k: nat)
    requires WellFormedParts(ps)
  {
    ps != [] && if k < Size(ps[0]) then InBlock(ps[0], k) else InSomeBlock(ps[1..], k - Size(ps[0]))
  }

  /** What such a reply seems to say. */
  function CutLines(ps: seq<Part>, text: string, k: nat): seq<string>
    requires WellFormedParts(ps) && Mistaken(ps, k)
  {
    if ps == [] then [text[..Min(|text|, if k < 4 then 0 else k - 4)]]
    else if k == 3 then [""]
    else LinesOf(ps[0]) + CutLines(ps[1..], text, k - Size(ps[0]))
  }

  /** A line cut off, its end included. */
  lemma {:induction false} CutLine(t: string, k: nat)
    requires Clean(t) && 0 < k < |t| + 2
    ensures var s := (t + "\r\n")[..k]; Line(s) == t[..Min(k, |t|)] && Rest(s) == ""
  {
    var s := (t + "\r\n")[..k];
    NoLineFeed(s);
    if k <= |t| {
      assert s == t[..k];
    } else {
      assert s == t + "\r" && s[..|t|] == t && t[..|t|] == t;
      assert RStrip(s) == RStrip(t);
    }
    assert RStrip(t[..Min(k, |t|)]) == t[..Min(k, |t|)];
  }

  lemma {:induction false} NoLineFeed(s: string)
    requires forall i :: 0 <= i < |s| ==> s[i] != '\n'
    ensures LineEnd(s) == |s| && s[..LineEnd(s)] == s && s[LineEnd(s)..] == ""
  {
    if s != [] {
      NoLineFeed(s[1..]);
    }
  }

  lemma {:induction false} PutDataAppends(data: seq<string>, tail: string)
    ensures PutData(data, tail) == PutData(data, "") + tail
  {
    if data != [] {
      PutDataAppends(data[1..], tail);
    }
  }

  lemma PutPartAppends(p: Part, tail: string)
    requires WellFormedPart(p)
    ensures PutPart(p, tail) == PutPart(p, "") + tail
  {
    if p.Data? {
      PutDataAppends(p.data, tail);
    }
  }

  /** A line with what follows, cut off behind the line or inside it. */
  lemma CutPut(t: string, after: string, k: nat)
    requires k <= |Put(t, after)|
    ensures k >= |t| + 2 ==> Put(t, after)[..k] == Put(t, after[..k - (|t| + 2)])
    ensures k < |t| + 2 ==> Put(t, after)[..k] == (t + "\r\n")[..k]
  {
    assert Put(t, after) == t + "\r\n" + after;
    if k >= |t| + 2 {
      var rest := after[..k - (|t| + 2)];
      assert Put(t, rest) == t + "\r\n" + rest;
    }
  }

  /** Data cut off: the end comes inside the block, or behind what was taken for its last line. */
  lemma {:induction false} CutData(data: seq<string>, k: nat, lines: seq<string>)
    requires CleanAll(data) && k < |PutData(data, "")|
    ensures var r := ReadData(PutData(data, "")[..k], lines);
      r.stream == "" && (r.Got? <==> DotLeft(data, k)) && (r.Failed? ==> r.error == EofInData)
  {
    var t := if data == [] then "." else Stuffed(data[0]);
    var after := if data == [] then "" else PutData(data[1..], "");
    CutPut(t, after, k);
    if k >= |t| + 2 {
      var m := k - (|t| + 2);
      DataStep(data[0], after[..m], lines);
      CutData(data[1..], m, lines + [data[0]]);
    } else if k > 0 {
      CutLine(t, k);
    }
  }

  /** What a head line cut off is read as. */
  lemma CutHead(u: Alphabet, code: nat, sep: char, text: string, k: nat)
    requires Ascii(u) && code < 400 && Clean(text) && (sep == '-' || sep == '+' || sep == ' ')
    requires 0 < k < |Head(code, sep, text)| + 2
    ensures var line := Line((Head(code, sep, text) + "\r\n")[..k]);
      && Rest((Head(code, sep, text) + "\r\n")[..k]) == ""
      && (k < 3 <==> !HasCode(u, line))
      && (k >= 3 ==> HasNumber(u, line) && Code(u, line) == code)
      && (k == 3 ==> Separator(line) == ' ' && Text(line) == "")
      && (k > 3 ==> Separator(line) == sep && Text(line) == text[..Min(k - 4, |text|)])
  {
    var h := Head(code, sep, text);
    HeadParts(u, code, sep, text);
    CutLine(h, k);
    if k > 3 {
      assert h[..Min(k, |h|)][4..] == text[..Min(k - 4, |text|)];
    }
  }

  /** And what becomes of the reply. */
  lemma CutHeadRead(u: Alphabet, code: nat, sep: char, text: string, k: nat, lines: seq<string>)
    requires Ascii(u) && code < 400 && Clean(text) && (sep == '-' || sep == '+' || sep == ' ')
    requires 0 < k < |Head(code, sep, text)| + 2
    ensures var r := Read(u, (Head(code, sep, text) + "\r\n")[..k], lines);
      if k < 3 then r.Failed? && r.error.Malformed? && r.stream == ""
      else if k == 3 then r == Got(lines + [""], "")
      else if sep == '-' then r == Failed(Eof, "")
      else if sep == '+' then r == Failed(EofInData, "")
      else r == Got(lines + [text[..Min(k - 4, |text|)]], "")
  {
    CutHead(u, code, sep, text, k);
  }

  /** What comes of a cut inside a part. */
  ghost predicate CutFails(r: Outcome, p: Part, k: nat, lines: seq<string>) {
    if k == 3 then r == Got(lines + [""], "")
    else
      && r.Failed? && r.stream == ""
      && (if k == 1 || k == 2 then r.error.Malformed? else r.error == if InBlock(p, k) then EofInData else Eof)
  }

  lemma CutMid(u: Alphabet, code: nat, text: string, k: nat, lines: seq<string>)
    requires Ascii(u) && WellFormedPart(Mid(code, text)) && k < Size(Mid(code, text))
    ensures CutFails(Read(u, PutPart(Mid(code, text), "")[..k], lines), Mid(code, text), k, lines)
  {
    var h := Head(code, '-', text);
    assert PutPart(Mid(code, text), "") == h + "\r\n";
    if k > 0 {
      CutHeadRead(u, code, '-', text, k, lines);
    }
  }

  lemma BlockThenEnd(u: Alphabet, code: nat, text: string, t: string, lines: seq<string>)
    requires Ascii(u) && code < 400 && Clean(text) && ReadData(t, lines + [text]).stream == ""
    ensures var r := ReadData(t, lines + [text]);
      Read(u, Put(Head(code, '+', text), t), lines) == if r.Failed? then r else Failed(Eof, "")
  {
    HeadParts(u, code, '+', text);
    ReadsLine(Head(code, '+', text), t);
  }

  lemma CutInside(u: Alphabet, code: nat, text: string, data: seq<string>, m: nat, s: string, lines: seq<string>)
    requires Ascii(u) && code < 400 && Clean(text) && CleanAll(data) && m < |PutData(data, "")|
    requires s == Put(Head(code, '+', text), PutData(data, "")[..m])
    ensures CutFails(Read(u, s, lines), Data(code, text, data), m + |text| + 6, lines)
  {
    CutData(data, m, lines + [text]);
    BlockThenEnd(u, code, text, PutData(data, "")[..m], lines);
  }

  lemma CutInHead(u: Alphabet, code: nat, text: string, data: seq<string>, k: nat, s: string, lines: seq<string>)
    requires Ascii(u) && code < 400 && Clean(text) && k < |text| + 6 && s == (Head(code, '+', text) + "\r\n")[..k]
    ensures CutFails(Read(u, s, lines), Data(code, text, data), k, lines)
  {
    if k > 0 {
      CutHeadRead(u, code, '+', text, k, lines);
    }
  }

  lemma CutBlock(u: Alphabet, code: nat, text: string, data: seq<string>, k: nat, lines: seq<string>)
    requires Ascii(u) && code < 400 && Clean(text) && CleanAll(data) &&
        k < |Put(Head(code, '+', text), PutData(data, ""))|
    ensures var r := Read(u, Put(Head(code, '+', text), PutData(data, ""))[..k], lines);
      CutFails(r, Data(code, text, data), k, lines)
  {
    var s := Put(Head(code, '+', text), PutData(data, ""))[..k];
    CutPut(Head(code, '+', text), PutData(data, ""), k);
    if k >= |text| + 6 {
      CutInside(u, code, text, data, k - (|text| + 6), s, lines);
    } else {
      CutInHead(u, code, text, data, k, s, lines);
    }
  }

  lemma CutPart(u: Alphabet, p: Part, k: nat, lines: seq<string>)
    requires Ascii(u) && WellFormedPart(p) && k < Size(p)
    ensures CutFails(Read(u, PutPart(p, "")[..k], lines), p, k, lines)
  {
    match p
    case Mid(code, text) => CutMid(u, code, text, k, lines);
    case Data(code, text, data) => CutBlock(u, code, text, data, k, lines);
  }

  /** A cut behind a part leaves the part as it is. */
  lemma CutBehind(u: Alphabet, p: Part, after: string, k: nat, lines: seq<string>)
    requires Ascii(u) && WellFormedPart(p) && Size(p) <= k <= |PutPart(p, after)|
    ensures k >= 6 && k - Size(p) <= |after|
    ensures Read(u, PutPart(p, after)[..k], lines) == Read(u, after[..k - Size(p)], lines + LinesOf(p))
  {
    var m := k - Size(p);
    PutPartAppends(p, after);
    PutPartAppends(p, after[..m]);
    assert PutPart(p, after)[..k] == PutPart(p, after[..m]);
    PartStep(u, p, after[..m], lines);
  }

  /** And a cut inside it does not depend on what would follow. */
  lemma CutWithin(p: Part, after: string, k: nat)
    requires WellFormedPart(p) && k < Size(p)
    ensures k <= |PutPart(p, after)| && PutPart(p, after)[..k] == PutPart(p, "")[..k]
  {
    PutPartAppends(p, after);
  }

  /**
   What comes of a reply cut off at `k`, with nothing behind it: it is taken for a whole one exactly
   in the cases above, malformed exactly when one or two digits of a line are left, and otherwise
   an unexpected end, inside data or not.
   */
  ghost predicate CutOutcome(r: Outcome, ps: seq<Part>, text: string, k: nat, lines: seq<string>)
    requires WellFormedParts(ps)
  {
    && r.stream == ""
    && (r.Got? <==> Mistaken(ps, k))
    && (r.Got? ==> r.lines == lines + CutLines(ps, text, k))
    && (r.Failed? ==> (r.error.Malformed? <==> Stub(ps, k)))
    && (r.Failed? && !Stub(ps, k) ==> r.error == if InSomeBlock(ps, k) then EofInData else Eof)
  }

  lemma CutLast(u: Alphabet, code: nat, text: string, k: nat, lines: seq<string>)
    requires Ascii(u) && code < 400 && Clean(text) && k < |Put(Head(code, ' ', text), "")|
    ensures CutOutcome(Read(u, Put(Head(code, ' ', text), "")[..k], lines), [], text, k, lines)
  {
    assert Put(Head(code, ' ', text), "") == Head(code, ' ', text) + "\r\n";
    if k > 0 {
      CutHeadRead(u, code, ' ', text, k, lines);
    }
  }

  lemma CutOutcomeInside(r: Outcome, ps: seq<Part>, text: string, k: nat, lines: seq<string>)
    requires WellFormedParts(ps) && ps != [] && k < Size(ps[0]) && CutFails(r, ps[0], k, lines)
    ensures CutOutcome(r, ps, text, k, lines)
  {
  }

  lemma Reassociate(a: seq<string>, b: seq<string>, c: seq<string>)
    ensures a + b + c == a + (b + c)
  {
  }

  lemma CutOutcomeBehind(r: Outcome, ps: seq<Part>, text: string, k: nat, lines: seq<string>)
    requires WellFormedParts(ps) && ps != [] && k >= Size(ps[0]) && k >= 6
    requires CutOutcome(r, ps[1..], text, k - Size(ps[0]), lines + LinesOf(ps[0]))
    ensures CutOutcome(r, ps, text, k, lines)
  {
    if Mistaken(ps[1..], k - Size(ps[0])) {
      Reassociate(lines, LinesOf(ps[0]), CutLines(ps[1..], text, k - Size(ps[0])));
    }
  }

  lemma {:induction false} CutOffParts(u: Alphabet, ps: seq<Part>, code: nat, text: string, k: nat, lines: seq<string>)
    requires Ascii(u) && WellFormedParts(ps) && code < 400 && Clean(text)
    requires k < |PutParts(ps, Put(Head(code, ' ', text), ""))|
    ensures CutOutcome(Read(u, PutParts(ps, Put(Head(code, ' ', text), ""))[..k], lines), ps, text, k, lines)
  {
    var last := Put(Head(code, ' ', text), "");
    if ps == [] {
      CutLast(u, code, text, k, lines);
    } else {
      var p, after := ps[0], PutParts(ps[1..], last);
      var r := Read(u, PutPart(p, after)[..k], lines);
      if k >= Size(p) {
        CutBehind(u, p, after, k, lines);
        PutPartAppends(p, after);
        CutOffParts(u, ps[1..], code, text, k - Size(p), lines + LinesOf(p));
        CutOutcomeBehind(r, ps, text, k, lines);
      } else {
        CutWithin(p, after, k);
        CutPart(u, p, k, lines);
        CutOutcomeInside(r, ps, text, k, lines);
      }
    }
  }

  /** The same of a whole reply, for every place where the stream may end too early. */
  lemma CutOff(u: Alphabet, r: Reply, k: nat)
    requires Ascii(u) && WellFormed(r) && k < |PutReply(r, "")|
    ensures var o := Read(u, PutReply(r, "")[..k], []);
      && (o.Got? <==> Mistaken(r.parts, k))
      && (o.Got? ==> o == Got(CutLines(r.parts, r.text, k), ""))
      && (o.Failed? ==> o.stream == "" && (o.error.Malformed? <==> Stub(r.parts, k)))
      && (o.Failed? && !Stub(r.parts, k) ==> o.error == if InSomeBlock(r.parts, k) then EofInData else Eof)
  {
    CutOffParts(u, r.parts, r.code, r.text, k, []);
    if Mistaken(r.parts, k) {
      assert [] + CutLines(r.parts, r.text, k) == CutLines(r.parts, r.text, k);
    }
  }

  /** So a reply of two lines, of which three characters arrive, is read as a reply of one empty line. */
  lemma CutOffWitness(u: Alphabet)
    requires Ascii(u)
    ensures var r := Reply([Mid(250, "version=1")], 250, "OK");
      WellFormed(r) && |PutReply(r, "")| > 3 && Read(u, PutReply(r, "")[..3], []) == Got([""], "")
  {
    var r := Reply([Mid(250, "version=1")], 250, "OK");
    assert WellFormedPart(r.parts[0]);
    CutOff(u, r, 3);
  }

  /** Cut off behind any part but the last line, a reply is an unexpected end and not a shorter reply. */
  lemma CutOffBetweenParts(u: Alphabet, ps: seq<Part>)
    requires Ascii(u) && WellFormedParts(ps)
    ensures Read(u, PutParts(ps, ""), []) == Failed(Eof, "")
  {
    ReadsParts(u, ps, "", []);
  }
}
