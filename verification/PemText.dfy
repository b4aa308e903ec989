/**
 PEM text at the granularity of lines, with the decoder and the encoder the CA bundle code relies on
 (RFC 7468 sections 2 and 5.2: text outside the boundaries is skipped, headers are not allowed in a bundle).
 */
module PemText {

  newtype byte = x: int | 0 <= x < 256

  type Bytes = seq<byte>

  /** A Data line stands for one line of base64 characters, by the bytes it encodes; a blank line is Data([]). */
  datatype Line =
    | Begin(kind: string)
    | End(kind: string)
    | Data(chunk: Bytes)
    | Text(chars: string)

  type Pem = seq<Line>

  datatype Decoded = NoBlock | Block(kind: string, headers: nat, bytes: Bytes, rest: Pem)

  /** The decoder takes every line that holds a colon, right after the BEGIN line, for a header. */
  predicate HasColon(line: Line) {
    match line
    case Begin(kind) => ':' in kind
    case End(kind) => ':' in kind
    case Data(_) => false
    case Text(chars) => ':' in chars
  }

  function LeadingHeaders(text: Pem): (h: nat)
    ensures h <= |text|
    ensures forall i :: 0 <= i < h ==> HasColon(text[i])
    ensures h < |text| ==> !HasColon(text[h])
  {
    if text == [] || !HasColon(text[0]) then 0 else 1 + LeadingHeaders(text[1..])
  }

  function FirstEnd(text: Pem): (e: nat)
    ensures e <= |text|
    ensures forall i :: 0 <= i < e ==> !text[i].End?
    ensures e < |text| ==> text[e].End?
  {
    if text == [] || text[0].End? then 0 else 1 + FirstEnd(text[1..])
  }

  predicate AllData(text: Pem) {
    forall line :: line in text ==> line.Data?
  }

  function Concat(text: Pem): Bytes
    requires AllData(text)
  {
    if text == [] then [] else text[0].chunk + Concat(text[1..])
  }

  /**
   The first well-formed block and the text behind it. A BEGIN line without a matching END line, or with a body
   that is not base64, is passed over and the search resumes behind it and its headers.
   */
  function Decode(text: Pem): (d: Decoded)
    ensures d.Block? ==> |d.rest| < |text|
    decreases |text|
  {
    if text == [] then NoBlock
    else if !text[0].Begin? then Decode(text[1..])
    else
      var h := LeadingHeaders(text[1..]);
      var body := text[1 + h..];
      if body == [] then NoBlock
      else
        var from := if h == 0 then 0 else 1;
        var e := from + FirstEnd(body[from..]);
        if e < |body| && body[e].kind == text[0].kind && AllData(body[..e]) then
          Block(text[0].kind, h, Concat(body[..e]), body[e + 1..])
        else
          Decode(body)
  }

  /** Sixty-four base64 characters a line, that is 48 bytes. */
  const BYTES_PER_LINE: nat := 48

  function DataLines(bytes: Bytes): (lines: Pem)
    ensures AllData(lines)
    ensures Concat(lines) == bytes
    decreases |bytes|
  {
    if bytes == [] then []
    else if |bytes| <= BYTES_PER_LINE then [Data(bytes)]
    else [Data(bytes[..BYTES_PER_LINE])] + DataLines(bytes[BYTES_PER_LINE..])
  }

  function Encode(kind: string, bytes: Bytes): Pem {
    [Begin(kind)] + DataLines(bytes) + [End(kind)]
  }

  lemma {:induction false} FirstEndAfterData(lines: Pem, kind: string, rest: Pem)
    requires AllData(lines)
    ensures FirstEnd(lines + [End(kind)] + rest) == |lines|
  {
    var text := lines + [End(kind)] + rest;
    assert text[|lines|] == End(kind);
    assert forall i :: 0 <= i < |lines| ==> text[i] == lines[i] && lines[i] in lines;
  }

  /** Decoding an encoded block returns its kind and its bytes, whatever comment line comes first. */
  lemma {:induction false} DecodeEncode(comment: string, kind: string, bytes: Bytes, rest: Pem)
    requires ':' !in kind
    ensures Decode([Text(comment)] + Encode(kind, bytes) + rest) == Block(kind, 0, bytes, rest)
  {
    var lines := DataLines(bytes);
    var text := [Text(comment)] + Encode(kind, bytes) + rest;
    var block := Encode(kind, bytes) + rest;
    var body := lines + [End(kind)] + rest;
    assert text[1..] == block;
    assert block[1..] == body;
    assert LeadingHeaders(body) == 0 by {
      if lines != [] { assert body[0] == lines[0] && lines[0] in lines; }
    }
    assert block[1 + 0..] == body;
    FirstEndAfterData(lines, kind, rest);
    assert body[0..] == body;
    assert body[..|lines|] == lines;
    assert body[|lines| + 1..] == rest;
    assert Decode(block) == Block(kind, 0, bytes, rest);
  }

  lemma {:induction false} HeadersLead(headers: Pem, body: Pem)
    requires forall line :: line in headers ==> HasColon(line)
    requires body != [] && !HasColon(body[0])
    ensures LeadingHeaders(headers + body) == |headers|
    decreases |headers|
  {
    if headers == [] {
      assert headers + body == body;
    } else {
      assert (headers + body)[1..] == headers[1..] + body;
      HeadersLead(headers[1..], body);
    }
  }

  lemma {:induction false} EndBehindData(lines: Pem, kind: string, rest: Pem, from: nat)
    requires AllData(lines) && from <= |lines|
    ensures var body := lines + [End(kind)] + rest;
      && from + FirstEnd(body[from..]) == |lines|
      && body[|lines|] == End(kind) && body[..|lines|] == lines && body[|lines| + 1..] == rest
  {
    var body, behind := lines + [End(kind)] + rest, lines[from..];
    assert body[from..] == behind + [End(kind)] + rest;
    FirstEndAfterData(behind, kind, rest);
  }

  /** Lines with a colon behind the BEGIN line are counted as headers, and are no part of the bytes. */
  lemma {:induction false} DecodeCountsHeaders(kind: string, headers: Pem, bytes: Bytes, rest: Pem)
    requires bytes != [] && forall line :: line in headers ==> HasColon(line)
    ensures Decode([Begin(kind)] + (headers + (DataLines(bytes) + [End(kind)] + rest)))
      == Block(kind, |headers|, bytes, rest)
  {
    var lines := DataLines(bytes);
    var body := lines + [End(kind)] + rest;
    var text := [Begin(kind)] + (headers + body);
    assert text[1..] == headers + body && text[1 + |headers|..] == body;
    assert body[0] == lines[0] && lines[0] in lines;
    HeadersLead(headers, body);
    EndBehindData(lines, kind, rest, if |headers| == 0 then 0 else 1);
  }

  /** Lines outside of blocks are skipped. */
  lemma {:induction false} DecodeSkips(lines: Pem, rest: Pem)
    requires forall line :: line in lines ==> !line.Begin?
    ensures Decode(lines + rest) == Decode(rest)
    decreases |lines|
  {
    if lines == [] {
      assert lines + rest == rest;
    } else {
      assert (lines + rest)[0] in lines && (lines + rest)[1..] == lines[1..] + rest;
      DecodeSkips(lines[1..], rest);
    }
  }

  /** A block whose END line has another kind, or whose body is not base64, is none. */
  lemma {:induction false} DecodePassesOver(kind: string, body: Pem, other: string, rest: Pem)
    requires forall line :: line in body ==> !line.Begin? && !line.End? && !HasColon(line)
    requires ':' !in other && (other != kind || !AllData(body))
    ensures Decode([Begin(kind)] + body + [End(other)] + rest) == Decode(rest)
  {
    var behind := body + [End(other)] + rest;
    var text := [Begin(kind)] + body + [End(other)] + rest;
    assert text[1..] == behind && text[1 + 0..] == behind && behind[0..] == behind;
    assert LeadingHeaders(behind) == 0 by {
      if body != [] { assert behind[0] == body[0] && body[0] in body; }
    }
    assert FirstEnd(behind) == |body| by {
      assert behind[|body|] == End(other);
      assert forall i :: 0 <= i < |body| ==> behind[i] == body[i] && body[i] in body;
    }
    assert behind[..|body|] == body;
    var skipped := body + [End(other)];
    assert behind == skipped + rest;
    DecodeSkips(skipped, rest);
  }
}
