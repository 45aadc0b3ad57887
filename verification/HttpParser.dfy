/** Reading the head of the tracker's response (src/http_parser.cpp). */
module HttpParser {
  import opened Bytes
  import opened PatternSearch

  const SP: byte := 32
  const CR: byte := 13
  const COLON: byte := 58
  const CRLF: seq<byte> := [13, 10]
  const VERSION: seq<byte> := [118, 101, 114, 115, 105, 111, 110]  // "version"
  const STATUS: seq<byte> := [115, 116, 97, 116, 117, 115]         // "status"

  type Fields = map<seq<byte>, seq<byte>>

  datatype Outcome =
    | Header(fields: Fields, stop: nat)  // `stop`: where the pointer `end` rests
    | BadResponse                        // a line without a colon ends the program
    | Overrun                            // a pointer has stepped past the end of the message

  // `while(p != limit && *p != c) p++`
  function Until(msg: seq<byte>, i: nat, limit: nat, c: byte): (p: nat)
    requires i <= limit <= |msg|
    ensures i <= p <= limit && (p < limit ==> msg[p] == c)
    ensures forall k :: i <= k < p ==> msg[k] != c
    decreases limit - i
  {
    if i == limit || msg[i] == c then i else Until(msg, i + 1, limit, c)
  }

  // `while(p != limit && *p == c) p++`
  function Past(msg: seq<byte>, i: nat, limit: nat, c: byte): (p: nat)
    requires i <= limit <= |msg|
    ensures i <= p <= limit && (p < limit ==> msg[p] != c)
    ensures forall k :: i <= k < p ==> msg[k] == c
    decreases limit - i
  {
    if i == limit || msg[i] != c then i else Past(msg, i + 1, limit, c)
  }

  function ParseFields(msg: seq<byte>, i: nat, fields: Fields): Outcome
    decreases |msg| - i
  {
    if i > |msg| then Overrun
    else if i == |msg| || msg[i] == CR then Header(fields, i)
    else
      var end := Until(msg, i, |msg|, CR);
      var colon := Until(msg, i, end, COLON);
      if colon == end then BadResponse
      else
        var value := Past(msg, colon + 1, end, SP);
        ParseFields(msg, end + 2, fields[msg[i..colon] := msg[value..end]])
  }

  function ParseHead(msg: seq<byte>): Outcome {
    var n := |msg|;
    var versionEnd := Until(msg, 0, n, SP);
    var statusAt := Past(msg, versionEnd, n, SP);
    var statusEnd := Until(msg, statusAt, n, SP);
    var lineEnd := Until(msg, statusEnd, n, CR);
    ParseFields(msg, lineEnd + 2, map[VERSION := msg[..versionEnd], STATUS := msg[statusAt..statusEnd]])
  }

  // One turn of the field loop.
  lemma FieldStep(msg: seq<byte>, i: nat, fields: Fields)
    ensures i > |msg| ==> ParseFields(msg, i, fields) == Overrun
    ensures i <= |msg| && (i == |msg| || msg[i] == CR) ==> ParseFields(msg, i, fields) == Header(fields, i)
    ensures i < |msg| && msg[i] != CR ==>
              var end := Until(msg, i, |msg|, CR);
              var colon := Until(msg, i, end, COLON);
              ParseFields(msg, i, fields) ==
                if colon == end then BadResponse
                else ParseFields(msg, end + 2, fields[msg[i..colon] := msg[Past(msg, colon + 1, end, SP)..end]])
  {
    hide Until, Past;
  }

  method FindByte(msg: seq<byte>, from: nat, limit: nat, c: byte) returns (p: nat)
    requires from <= limit <= |msg|
    ensures p == Until(msg, from, limit, c)
  {
    p := from;
    while p != limit && msg[p] != c
      invariant from <= p <= limit && Until(msg, from, limit, c) == Until(msg, p, limit, c)
    {
      p := p + 1;
    }
  }

  method SkipByte(msg: seq<byte>, from: nat, limit: nat, c: byte) returns (p: nat)
    requires from <= limit <= |msg|
    ensures p == Past(msg, from, limit, c)
  {
    p := from;
    while p != limit && msg[p] == c
      invariant from <= p <= limit && Past(msg, from, limit, c) == Past(msg, p, limit, c)
    {
      p := p + 1;
    }
  }

  method ParseHeader(msg: seq<byte>) returns (r: Outcome)
    ensures r == ParseHead(msg)
  {
    hide ParseFields, Until, Past;
    var header: Fields := map[];
    var n := |msg|;
    var end := FindByte(msg, 0, n, SP);
    header := header[VERSION := msg[0..end]];
    var start := SkipByte(msg, end, n, SP);
    end := FindByte(msg, start, n, SP);
    header := header[STATUS := msg[start..end]];
    end := FindByte(msg, end, n, CR);
    end := end + 2;
    while end <= n && end != n && msg[end] != CR
      invariant ParseHead(msg) == ParseFields(msg, end, header)
      decreases n - end
    {
      FieldStep(msg, end, header);
      start := end;
      end := FindByte(msg, start, n, CR);
      var colon := FindByte(msg, start, end, COLON);
      if colon == end { return BadResponse; }
      var valueStart := SkipByte(msg, colon + 1, end, SP);
      header := header[msg[start..colon] := msg[valueStart..end]];
      end := end + 2;
    }
    FieldStep(msg, end, header);
    r := if end > n then Overrun else Header(header, end);
  }

  predicate Without(s: seq<byte>, c: byte) {
    forall b <- s :: b != c
  }

  // `p` is the first place from `i` on where `c` stands, or the end of the message.
  predicate FirstFrom(msg: seq<byte>, i: nat, p: nat, c: byte) {
    i <= p <= |msg| && (p < |msg| ==> msg[p] == c) && forall k :: i <= k < p ==> msg[k] != c
  }

  // From `i` on there are spaces up to `p`, and no more of them.
  predicate SpacesTo(msg: seq<byte>, i: nat, p: nat) {
    i <= p <= |msg| && (p < |msg| ==> msg[p] != SP) && forall k :: i <= k < p ==> msg[k] == SP
  }

  // The status line ends at `e`: behind the version, the spaces, the status, and the rest up to a CR.
  ghost predicate StatusLineEnds(msg: seq<byte>, e: nat) {
    exists a: nat, b: nat, c: nat ::
      FirstFrom(msg, 0, a, SP) && SpacesTo(msg, a, b) && FirstFrom(msg, b, c, SP) && FirstFrom(msg, c, e, CR)
  }

  /**
   * `lines` stand in the message from `i` to `j`: each is not empty, does not begin with CR, holds a colon, and ends
   * at its first CR, behind which one byte more is skipped.
   */
  ghost predicate FieldLinesStand(msg: seq<byte>, i: nat, lines: seq<seq<byte>>, j: nat)
    decreases |lines|
  {
    i <= |msg| &&
    if lines == [] then i == j
    else
      var line := lines[0];
      && line != [] && Without(line, CR) && COLON in line
      && At(msg, i, line + [CR])
      && FieldLinesStand(msg, i + |line| + 2, lines[1..], j)
  }

  // The three ends of a head.
  predicate Blank(msg: seq<byte>, j: nat) {
    j == |msg| || (j < |msg| && msg[j] == CR)
  }

  // A line without a colon, complete or not.
  ghost predicate NoColon(msg: seq<byte>, j: nat) {
    exists e :: j < e && FirstFrom(msg, j, e, CR) && COLON !in msg[j..e]
  }

  // A line that ends with the message, or with a CR that the message ends with.
  ghost predicate CutOff(msg: seq<byte>, j: nat) {
    exists e :: j < e && FirstFrom(msg, j, e, CR) && COLON in msg[j..e] && |msg| < e + 2
  }

  lemma FirstIsUntil(msg: seq<byte>, i: nat, p: nat, c: byte)
    requires i <= |msg|
    ensures FirstFrom(msg, i, p, c) <==> p == Until(msg, i, |msg|, c)
  {
    var u := Until(msg, i, |msg|, c);
    if FirstFrom(msg, i, p, c) {
      assert !(u < p) && !(p < u);
    }
  }

  lemma UntilColon(msg: seq<byte>, i: nat, limit: nat)
    requires i <= limit <= |msg|
    ensures Until(msg, i, limit, COLON) < limit <==> COLON in msg[i..limit]
  {
    var p := Until(msg, i, limit, COLON);
    if p < limit {
      assert msg[i..limit][p - i] == COLON;
    } else {
      forall b | b in msg[i..limit] ensures b != COLON {
        var k :| 0 <= k < limit - i && msg[i..limit][k] == b;
        assert msg[i + k] == b;
      }
    }
  }

  // How the field loop ends at `j`.
  ghost predicate EndsWith(r: Outcome, msg: seq<byte>, j: nat) {
    && (Blank(msg, j) ==> r.Header? && r.stop == j)
    && (NoColon(msg, j) ==> r.BadResponse?)
    && (CutOff(msg, j) ==> r.Overrun?)
  }

  lemma EndsHere(msg: seq<byte>, j: nat, fields: Fields)
    requires j <= |msg|
    ensures EndsWith(ParseFields(msg, j, fields), msg, j)
    ensures Blank(msg, j) || NoColon(msg, j) || CutOff(msg, j)
            || (var end := Until(msg, j, |msg|, CR);
                j < end && end + 2 <= |msg| && COLON in msg[j..end])
  {
    hide ParseFields, Until, Past;
    FieldStep(msg, j, fields);
    if j < |msg| && msg[j] != CR {
      var end := Until(msg, j, |msg|, CR);
      FirstIsUntil(msg, j, end, CR);
      UntilColon(msg, j, end);
      forall e: nat | FirstFrom(msg, j, e, CR) ensures e == end { FirstIsUntil(msg, j, e, CR); }
      if COLON in msg[j..end] && |msg| < end + 2 {
        var colon := Until(msg, j, end, COLON);
        FieldStep(msg, end + 2, fields[msg[j..colon] := msg[Past(msg, colon + 1, end, SP)..end]]);
      }
    }
  }

  // A complete field line leads on to the next one.
  lemma LineLeadsOn(msg: seq<byte>, i: nat, line: seq<byte>, fields: Fields) returns (next: Fields)
    requires line != [] && Without(line, CR) && COLON in line && At(msg, i, line + [CR])
    ensures ParseFields(msg, i, fields) == ParseFields(msg, i + |line| + 2, next)
  {
    hide At, ParseFields, Until, Past, Without;
    var end := i + |line|;
    LineScans(msg, i, line);
    FieldStep(msg, i, fields);
    var colon := Until(msg, i, end, COLON);
    next := fields[msg[i..colon] := msg[Past(msg, colon + 1, end, SP)..end]];
  }

  lemma LineScans(msg: seq<byte>, i: nat, line: seq<byte>)
    requires line != [] && Without(line, CR) && COLON in line && At(msg, i, line + [CR])
    ensures var end := i + |line|;
            && end < |msg| && msg[i] != CR && Until(msg, i, |msg|, CR) == end && Until(msg, i, end, COLON) < end
  {
    hide At, Until, Without;
    var end := i + |line|;
    AtSplit(msg, i, line, [CR]);
    AtByte(msg, end, [CR], 0);
    AtBytes(msg, i, line);
    UntilBehind(msg, i, line, |msg|, CR);
    UntilColon(msg, i, end);
    assert line[0] in line;
    NotIn(line, CR, line[0]);
  }

  lemma NotIn(s: seq<byte>, c: byte, b: byte)
    requires Without(s, c) && b in s
    ensures b != c
  {
  }

  // Wherever complete field lines lead, the loop gets there.
  lemma {:induction false} LinesLeadOn(msg: seq<byte>, i: nat, lines: seq<seq<byte>>, j: nat, fields: Fields)
    requires FieldLinesStand(msg, i, lines, j)
    ensures j <= |msg| && EndsWith(ParseFields(msg, i, fields), msg, j)
    decreases |lines|
  {
    hide At, ParseFields, Until, Past, Without, EndsWith;
    if lines == [] {
      EndsHere(msg, i, fields);
    } else {
      var next := LineLeadsOn(msg, i, lines[0], fields);
      LinesLeadOn(msg, i + |lines[0]| + 2, lines[1..], j, next);
    }
  }

  // There are always complete field lines up to one of the three ends.
  lemma {:induction false} LinesToTheEnd(msg: seq<byte>, i: nat) returns (lines: seq<seq<byte>>, j: nat)
    requires i <= |msg|
    ensures FieldLinesStand(msg, i, lines, j) && (Blank(msg, j) || NoColon(msg, j) || CutOff(msg, j))
    decreases |msg| - i
  {
    hide ParseFields, Until, Past, Blank, NoColon, CutOff;
    EndsHere(msg, i, map[]);
    lines, j := [], i;
    if !Blank(msg, i) && !NoColon(msg, i) && !CutOff(msg, i) {
      var end := Until(msg, i, |msg|, CR);
      var line, rest := msg[i..end], [];
      rest, j := LinesToTheEnd(msg, end + 2);
      lines := [line] + rest;
      assert msg[i..end + 1] == line + [CR];
      assert lines[1..] == rest;
    }
  }

  // Behind the status line stand `lines`, up to `j`.
  ghost predicate HeadStands(msg: seq<byte>, lines: seq<seq<byte>>, j: nat) {
    exists e: nat :: StatusLineEnds(msg, e) && FieldLinesStand(msg, e + 2, lines, j)
  }

  // The status line cut short.
  ghost predicate StatusCutOff(msg: seq<byte>) {
    exists e: nat :: StatusLineEnds(msg, e) && |msg| < e + 2
  }

  lemma SpacesArePast(msg: seq<byte>, i: nat, p: nat)
    requires i <= |msg|
    ensures SpacesTo(msg, i, p) <==> p == Past(msg, i, |msg|, SP)
  {
    var q := Past(msg, i, |msg|, SP);
    if SpacesTo(msg, i, p) {
      assert !(q < p) && !(p < q);
    }
  }

  // There is one status line.
  lemma StatusLineFound(msg: seq<byte>) returns (e: nat, fields: Fields)
    ensures StatusLineEnds(msg, e) && forall e': nat :: StatusLineEnds(msg, e') ==> e' == e
    ensures ParseHead(msg) == ParseFields(msg, e + 2, fields)
  {
    hide ParseFields, Until, Past, FirstFrom, SpacesTo;
    var n := |msg|;
    var a := Until(msg, 0, n, SP);
    var b := Past(msg, a, n, SP);
    var c := Until(msg, b, n, SP);
    e := Until(msg, c, n, CR);
    fields := map[VERSION := msg[..a], STATUS := msg[b..c]];
    FirstIsUntil(msg, 0, a, SP);
    SpacesArePast(msg, a, b);
    FirstIsUntil(msg, b, c, SP);
    FirstIsUntil(msg, c, e, CR);
    forall e': nat | StatusLineEnds(msg, e') ensures e' == e {
      var a': nat, b': nat, c': nat :| FirstFrom(msg, 0, a', SP) && SpacesTo(msg, a', b') && FirstFrom(msg, b', c', SP)
                                       && FirstFrom(msg, c', e', CR);
      FirstIsUntil(msg, 0, a', SP);
      SpacesArePast(msg, a, b');
      FirstIsUntil(msg, b, c', SP);
      FirstIsUntil(msg, c, e', CR);
    }
  }

  /**
   * What becomes of a message: complete field lines behind the status line lead to a blank line or the end of the
   * message, to a line without a colon, or to a line cut off before the byte behind its CR.
   */
  lemma HeadOutcome(msg: seq<byte>)
    ensures ParseHead(msg).Header? <==> exists lines, j :: HeadStands(msg, lines, j) && Blank(msg, j)
    ensures forall lines, j :: HeadStands(msg, lines, j) && Blank(msg, j) ==> ParseHead(msg).stop == j
    ensures ParseHead(msg).BadResponse? <==> exists lines, j :: HeadStands(msg, lines, j) && NoColon(msg, j)
    ensures ParseHead(msg).Overrun?
            <==> StatusCutOff(msg) || exists lines, j :: HeadStands(msg, lines, j) && CutOff(msg, j)
  {
    hide ParseHead, ParseFields, StatusLineEnds, Blank, NoColon, CutOff, FieldLinesStand;
    var e, fields := StatusLineFound(msg);
    forall lines, j | HeadStands(msg, lines, j) ensures EndsWith(ParseHead(msg), msg, j) {
      LinesLeadOn(msg, e + 2, lines, j, fields);
    }
    FieldStep(msg, e + 2, fields);
    if e + 2 <= |msg| {
      var lines, j := LinesToTheEnd(msg, e + 2);
      assert HeadStands(msg, lines, j);
    }
  }

  // `gap`: how many spaces stand behind the colon, or the version.
  datatype Field = Field(name: seq<byte>, gap: nat, value: seq<byte>)

  datatype Response = Response(version: seq<byte>, gap: nat, status: seq<byte>, reason: seq<byte>, fields: seq<Field>,
                               body: seq<byte>)

  function Spaces(n: nat): seq<byte> { seq(n, _ => SP) }

  predicate ValidField(f: Field) {
    && Without(f.name, COLON) && Without(f.name, CR)
    && Without(f.value, CR) && (f.value != [] ==> f.value[0] != SP)
  }

  // What RFC 9112, sections 4 and 5, lets a server send, as far as this parser needs it.
  predicate ValidResponse(r: Response) {
    && Without(r.version, SP) && Without(r.version, CR) && r.gap > 0
    && r.status != [] && Without(r.status, SP) && Without(r.status, CR)
    && Without(r.reason, CR)
    && (forall f <- r.fields :: ValidField(f))
  }

  function StatusLine(r: Response): seq<byte> {
    r.version + Spaces(r.gap) + r.status + [SP] + r.reason
  }

  function FieldLine(f: Field): seq<byte> {
    f.name + [COLON] + Spaces(f.gap) + f.value
  }

  function FieldLines(fields: seq<Field>): seq<seq<byte>> {
    if fields == [] then [] else [FieldLine(fields[0])] + FieldLines(fields[1..])
  }

  function Lines(lines: seq<seq<byte>>): seq<byte> {
    if lines == [] then [] else lines[0] + CRLF + Lines(lines[1..])
  }

  function Print(r: Response): seq<byte> {
    StatusLine(r) + CRLF + Lines(FieldLines(r.fields)) + CRLF + r.body
  }

  function AsMap(fields: seq<Field>): Fields {
    if fields == [] then map[]
    else
      var last := fields[|fields| - 1];
      AsMap(fields[..|fields| - 1])[last.name := last.value]
  }

  // A scan stops right behind bytes that have no `c`.
  lemma UntilBehind(msg: seq<byte>, i: nat, t: seq<byte>, limit: nat, c: byte)
    requires At(msg, i, t) && Without(t, c) && i + |t| <= limit <= |msg|
    requires i + |t| < limit ==> msg[i + |t|] == c
    ensures Until(msg, i, limit, c) == i + |t|
  {
    forall k | i <= k < i + |t| ensures msg[k] != c {
      assert t[k - i] in t;
      AtByte(msg, i, t, k - i);
    }
  }

  // And right behind its run of spaces.
  lemma PastBehind(msg: seq<byte>, i: nat, n: nat, limit: nat)
    requires At(msg, i, Spaces(n)) && i + n <= limit <= |msg| && (i + n < limit ==> msg[i + n] != SP)
    ensures Past(msg, i, limit, SP) == i + n
  {
    forall k | i <= k < i + n ensures msg[k] == SP {
      AtByte(msg, i, Spaces(n), k - i);
    }
  }

  // The scans of one header line, with the CRLF behind it.
  lemma FieldScans(msg: seq<byte>, i: nat, f: Field)
    requires ValidField(f) && At(msg, i, FieldLine(f) + CRLF)
    ensures var colon, end := i + |f.name|, i + |FieldLine(f)|;
            && i <= colon && colon + 1 + f.gap <= end < |msg| && msg[i] != CR
            && Until(msg, i, |msg|, CR) == end && Until(msg, i, end, COLON) == colon
            && Past(msg, colon + 1, end, SP) == colon + 1 + f.gap
            && msg[i..colon] == f.name && msg[colon + 1 + f.gap..end] == f.value
  {
    hide At, FieldLine, Until, Past, ValidField, Without;
    var line := FieldLine(f);
    var colon, end := i + |f.name|, i + |line|;
    AtSplit(msg, i, line, CRLF);
    AtByte(msg, end, CRLF, 0);
    FieldParts(msg, i, f);
    FieldIsPlain(f);
    AtByte(msg, i, line, 0);
    AtBytes(msg, i, line + CRLF);
    UntilBehind(msg, i, line, |msg|, CR);
    UntilBehind(msg, i, f.name, end, COLON);
    PastBehind(msg, colon + 1, f.gap, end);
  }

  lemma FieldAt(msg: seq<byte>, i: nat, f: Field, fields: Fields)
    requires ValidField(f) && At(msg, i, FieldLine(f) + CRLF)
    ensures ParseFields(msg, i, fields) == ParseFields(msg, i + |FieldLine(f)| + 2, fields[f.name := f.value])
  {
    hide At, ParseFields, FieldLine, Until, Past, ValidField;
    FieldScans(msg, i, f);
    FieldStep(msg, i, fields);
  }

  lemma FieldIsPlain(f: Field)
    requires ValidField(f)
    ensures FieldLine(f) != [] && Without(FieldLine(f), CR) && FieldLine(f)[0] != CR
  {
    assert FieldLine(f)[0] in FieldLine(f);
  }

  lemma FieldPieces(msg: seq<byte>, i: nat, f: Field)
    requires At(msg, i, FieldLine(f))
    ensures var colon := i + |f.name|;
            && |FieldLine(f)| == |f.name| + 1 + f.gap + |f.value|
            && At(msg, i, f.name) && At(msg, colon, [COLON]) && At(msg, colon + 1, Spaces(f.gap))
            && At(msg, colon + 1 + f.gap, f.value)
  {
    hide At;
    var colon := i + |f.name|;
    assert FieldLine(f) == f.name + ([COLON] + (Spaces(f.gap) + f.value));
    AtSplit(msg, i, f.name, [COLON] + (Spaces(f.gap) + f.value));
    AtSplit(msg, colon, [COLON], Spaces(f.gap) + f.value);
    AtSplit(msg, colon + 1, Spaces(f.gap), f.value);
  }

  lemma FieldParts(msg: seq<byte>, i: nat, f: Field)
    requires ValidField(f) && At(msg, i, FieldLine(f))
    ensures var colon, end := i + |f.name|, i + |FieldLine(f)|;
            && end <= |msg| && colon + 1 + f.gap <= end && At(msg, i, f.name) && msg[i..colon] == f.name
            && msg[colon] == COLON && At(msg, colon + 1, Spaces(f.gap)) && msg[colon + 1 + f.gap..end] == f.value
            && (colon + 1 + f.gap < end ==> msg[colon + 1 + f.gap] != SP) && Without(f.name, COLON)
  {
    hide At, Without, FieldLine, Spaces;
    var colon := i + |f.name|;
    FieldPieces(msg, i, f);
    AtBytes(msg, i, f.name);
    AtBytes(msg, colon + 1 + f.gap, f.value);
    AtByte(msg, colon, [COLON], 0);
    if f.value != [] { AtByte(msg, colon + 1 + f.gap, f.value, 0); }
  }

  lemma {:induction false} FieldsAt(msg: seq<byte>, i: nat, before: seq<Field>, fields: seq<Field>, base: Fields)
    requires forall f <- fields :: ValidField(f)
    requires At(msg, i, Lines(FieldLines(fields)) + CRLF)
    ensures ParseFields(msg, i, base + AsMap(before))
            == Header(base + AsMap(before + fields), i + |Lines(FieldLines(fields))|)
    decreases |fields|
  {
    hide At, ValidField, FieldLine, ParseFields, AsMap;
    if fields == [] {
      assert before + [] == before;
      assert [] + CRLF == CRLF;
      AtBytes(msg, i, CRLF);
      AtByte(msg, i, CRLF, 0);
      FieldStep(msg, i, base + AsMap(before));
    } else {
      var f, rest := fields[0], fields[1..];
      var line, after := FieldLine(f), Lines(FieldLines(rest)) + CRLF;
      assert FieldLines(fields)[1..] == FieldLines(rest);
      assert Lines(FieldLines(fields)) + CRLF == (line + CRLF) + after;
      AtSplit(msg, i, line + CRLF, after);
      assert f in fields && forall g <- rest :: g in fields;
      FieldAt(msg, i, f, base + AsMap(before));
      AsMapSnoc(base, before, f);
      assert before + [f] + rest == before + fields;
      FieldsAt(msg, i + |line| + 2, before + [f], rest, base);
    }
  }

  lemma AsMapSnoc(base: Fields, before: seq<Field>, f: Field)
    ensures (base + AsMap(before))[f.name := f.value] == base + AsMap(before + [f])
  {
    assert (before + [f])[..|before|] == before;
  }

  // What a printed response is parsed into.
  function Expected(r: Response): Fields {
    map[VERSION := r.version, STATUS := r.status] + AsMap(r.fields)
  }

  /** A field whose name is not used again keeps its value. */
  lemma {:induction false} FieldKept(base: Fields, fields: seq<Field>, k: nat)
    requires k < |fields| && forall j :: k < j < |fields| ==> fields[j].name != fields[k].name
    ensures var m := base + AsMap(fields); fields[k].name in m && m[fields[k].name] == fields[k].value
    decreases |fields|
  {
    var last := |fields| - 1;
    if k < last {
      FieldKept(base, fields[..last], k);
    }
  }

  // The offset of the blank line's CR.
  function BlankLineAt(r: Response): nat {
    |StatusLine(r)| + 2 + |Lines(FieldLines(r.fields))|
  }

  /** Every field of a printed response, and nothing else, is read back; the parser stops on the blank line. */
  lemma HeadRoundTrip(r: Response)
    requires ValidResponse(r)
    ensures ParseHead(Print(r)) == Header(Expected(r), BlankLineAt(r))
  {
    hide At, ParseFields, FieldLines, Lines, ParseHead, ValidField, StatusLine, Print, AsMap, Without;
    PrintLayout(r);
    StatusParts(Print(r), r);
    var base := map[VERSION := r.version, STATUS := r.status];
    FieldsAt(Print(r), |StatusLine(r)| + 2, [], r.fields, base);
    assert [] + r.fields == r.fields;
    NoFields(base);
  }

  // Where the status line and the fields of a printed response stand.
  lemma PrintLayout(r: Response)
    ensures var msg, line := Print(r), StatusLine(r);
            && At(msg, 0, line) && |line| < |msg| && msg[|line|] == CR
            && At(msg, |line| + 2, Lines(FieldLines(r.fields)) + CRLF)
  {
    hide At, FieldLines, Lines, StatusLine, Print;
    PrintInParts(r);
    Alone(Print(r));
    LineAndText(Print(r), StatusLine(r), Lines(FieldLines(r.fields)) + CRLF, r.body);
  }

  lemma LineAndText(msg: seq<byte>, line: seq<byte>, text: seq<byte>, body: seq<byte>)
    requires At(msg, 0, line + (CRLF + (text + body)))
    ensures At(msg, 0, line) && |line| < |msg| && msg[|line|] == CR && At(msg, |line| + 2, text)
  {
    hide At;
    AtSplit(msg, 0, line, CRLF + (text + body));
    AtSplit(msg, |line|, CRLF, text + body);
    AtSplit(msg, |line| + 2, text, body);
    AtByte(msg, |line|, CRLF, 0);
  }

  lemma PrintInParts(r: Response)
    ensures Print(r) == StatusLine(r) + (CRLF + (Lines(FieldLines(r.fields)) + CRLF + r.body))
  {
    hide FieldLines, Lines, StatusLine;
  }

  lemma NoFields(base: Fields)
    ensures base + AsMap([]) == base
  {
  }

  // Where the pieces of the status line stand.
  lemma StatusLayout(msg: seq<byte>, r: Response)
    requires At(msg, 0, StatusLine(r))
    ensures var a := |r.version| + r.gap;
            var b := a + |r.status|;
            && At(msg, 0, r.version) && At(msg, |r.version|, Spaces(r.gap)) && At(msg, a, r.status)
            && At(msg, b, [SP] + r.reason) && |StatusLine(r)| == b + 1 + |r.reason|
  {
    hide At;
    var v := |r.version|;
    assert StatusLine(r) == r.version + (Spaces(r.gap) + (r.status + ([SP] + r.reason)));
    AtSplit(msg, 0, r.version, Spaces(r.gap) + (r.status + ([SP] + r.reason)));
    AtSplit(msg, v, Spaces(r.gap), r.status + ([SP] + r.reason));
    AtSplit(msg, v + r.gap, r.status, [SP] + r.reason);
  }

  lemma StatusBytes(r: Response)
    requires ValidResponse(r)
    ensures Without(r.version, SP) && r.status != [] && Without(r.status, SP) && r.status[0] != SP && r.gap > 0
    ensures Without([SP] + r.reason, CR)
  {
    assert r.status[0] in r.status;
  }

  // The four scans of the status line.
  lemma StatusParts(msg: seq<byte>, r: Response)
    requires ValidResponse(r) && At(msg, 0, StatusLine(r)) && |StatusLine(r)| < |msg| && msg[|StatusLine(r)|] == CR
    ensures ParseHead(msg) == ParseFields(msg, |StatusLine(r)| + 2, map[VERSION := r.version, STATUS := r.status])
  {
    hide At, ParseFields, ValidResponse, Until, Past, StatusLine, Without, Spaces;
    var n, v := |msg|, |r.version|;
    var a := v + r.gap;
    var b := a + |r.status|;
    StatusLayout(msg, r);
    StatusBytes(r);
    AtBytes(msg, 0, r.version);
    FirstSpace(msg, v, r.gap);
    AtBytes(msg, a, r.status);
    AtBytes(msg, b, [SP] + r.reason);
    AtByte(msg, a, r.status, 0);
    AtByte(msg, b, [SP] + r.reason, 0);
    UntilBehind(msg, 0, r.version, n, SP);
    PastBehind(msg, v, r.gap, n);
    UntilBehind(msg, a, r.status, n, SP);
    UntilBehind(msg, b, [SP] + r.reason, n, CR);
  }

  lemma FirstSpace(msg: seq<byte>, i: nat, n: nat)
    requires At(msg, i, Spaces(n)) && n > 0
    ensures i + n <= |msg| && |Spaces(n)| == n && msg[i] == SP
  {
    AtByte(msg, i, Spaces(n), 0);
  }

  predicate PlainLines(lines: seq<seq<byte>>) {
    forall line <- lines :: line != [] && Without(line, CR)
  }

  // CRLFCRLF occurs first where the last line ends: two bytes before the blank line.
  lemma {:induction false} BlankLineIsFirst(msg: seq<byte>, i: nat, lines: seq<seq<byte>>)
    requires PlainLines(lines) && lines != [] && At(msg, i, Lines(lines) + CRLF)
    ensures |Lines(lines)| >= 2 && Occurs(msg, END_OF_HEADER, i + |Lines(lines)| - 2)
    ensures forall at :: i <= at < i + |Lines(lines)| - 2 ==> !Occurs(msg, END_OF_HEADER, at)
    decreases |lines|
  {
    hide At, Occurs, Without, Lines;
    var line, rest := lines[0], lines[1..];
    var end := i + |line|;
    assert line in lines;
    FirstLine(msg, i, lines);
    if rest == [] {
      assert Lines(rest) == [] by { NoLines(); }
      OccursHere(msg, end);
    } else {
      assert forall l <- rest :: l in lines;
      assert rest[0] in rest;
      BlankLineIsFirst(msg, end + 2, rest);
      NextLine(msg, end + 2, rest);
      if Occurs(msg, END_OF_HEADER, end) {
        OccursAt(msg, END_OF_HEADER, end, 2);
      }
    }
    forall at | i <= at < end + 2 && at != end ensures !Occurs(msg, END_OF_HEADER, at) {
      NoMatchAt(msg, i, line, at);
    }
  }

  lemma NoLines()
    ensures Lines([]) == []
  {
  }

  lemma FirstLine(msg: seq<byte>, i: nat, lines: seq<seq<byte>>)
    requires lines != [] && At(msg, i, Lines(lines) + CRLF)
    ensures var line, rest := lines[0], lines[1..];
            && |Lines(lines)| == |line| + 2 + |Lines(rest)|
            && At(msg, i, line) && At(msg, i + |line|, CRLF) && At(msg, i + |line| + 2, Lines(rest) + CRLF)
            && (rest == [] ==> At(msg, i + |line|, CRLF + CRLF))
  {
    hide At;
    var line, after := lines[0], Lines(lines[1..]) + CRLF;
    assert Lines(lines) + CRLF == line + (CRLF + after);
    AtSplit(msg, i, line, CRLF + after);
    AtSplit(msg, i + |line|, CRLF, after);
    if lines[1..] == [] { assert CRLF + after == CRLF + CRLF; }
  }

  // A line that is not blank does not begin with CR.
  lemma NextLine(msg: seq<byte>, i: nat, lines: seq<seq<byte>>)
    requires lines != [] && At(msg, i, Lines(lines) + CRLF) && lines[0] != [] && Without(lines[0], CR)
    ensures i < |msg| && msg[i] != CR
  {
    hide At;
    FirstLine(msg, i, lines);
    AtBytes(msg, i, lines[0]);
    AtByte(msg, i, lines[0], 0);
    assert lines[0][0] in lines[0];
  }

  lemma NoMatchAt(msg: seq<byte>, i: nat, line: seq<byte>, at: nat)
    requires At(msg, i, line) && At(msg, i + |line|, CRLF) && Without(line, CR)
    requires i <= at < i + |line| + 2 && at != i + |line|
    ensures !Occurs(msg, END_OF_HEADER, at)
  {
    hide At, Occurs;
    AtBytes(msg, i + |line|, CRLF);
    assert msg[at] != CR by {
      if at < i + |line| {
        assert line[at - i] in line;
        AtByte(msg, i, line, at - i);
      } else {
        AtByte(msg, i + |line|, CRLF, 1);
      }
    }
    if Occurs(msg, END_OF_HEADER, at) {
      OccursAt(msg, END_OF_HEADER, at, 0);
    }
  }

  lemma OccursHere(msg: seq<byte>, at: nat)
    requires At(msg, at, CRLF + CRLF)
    ensures Occurs(msg, END_OF_HEADER, at)
  {
    assert CRLF + CRLF == END_OF_HEADER;
  }

  lemma {:induction false} FieldLinesArePlain(fields: seq<Field>)
    requires forall f <- fields :: ValidField(f)
    ensures PlainLines(FieldLines(fields))
    decreases |fields|
  {
    if fields != [] {
      assert fields[0] in fields && forall f <- fields[1..] :: f in fields;
      FieldLinesArePlain(fields[1..]);
      assert Without(FieldLine(fields[0]), CR);
    }
  }

  /**
   * Head and body agree: `get_body` answers on a printed response exactly when the body has 4 bytes or more,
   * and then with the offset two behind the byte the header parser stopped on.
   */
  lemma BodyFollowsHead(r: Response, at: int)
    requires ValidResponse(r) && FirstMatch(Print(r), END_OF_HEADER, at)
    ensures at != -1 <==> |r.body| >= 4
    ensures at != -1 ==> at + 4 == BlankLineAt(r) + 2 && Print(r)[at + 4..] == r.body
  {
    hide At, Occurs, FirstMatch, ValidField;
    var msg := Print(r);
    var lines := [StatusLine(r)] + FieldLines(r.fields);
    FieldLinesArePlain(r.fields);
    assert Without(StatusLine(r), CR);
    assert lines[1..] == FieldLines(r.fields);
    assert PlainLines(lines);
    assert msg == (Lines(lines) + CRLF) + r.body;
    Alone(msg);
    AtSplit(msg, 0, Lines(lines) + CRLF, r.body);
    BlankLineIsFirst(msg, 0, lines);
    var k := |Lines(lines)| - 2;
    assert |msg| == k + 4 + |r.body|;
    forall t | t < k ensures !Occurs(msg, END_OF_HEADER, t) {
      if t < 0 { NoneBelowZero(msg, END_OF_HEADER, t); }
    }
    FirstIs(msg, END_OF_HEADER, k, at);
    assert msg[k + 4..] == r.body;
  }
}
