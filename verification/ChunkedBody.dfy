/** Reading a body in the chunked transfer coding of section 7.1 of RFC 9112
    (read_chunked_body in engine/src/main.rs). */
module ChunkedBody {
  import opened Ordering
  import opened Results
  import opened Utf8

  const LF: byte := 0x0A
  const CRLF: Bytes := [0x0D, 0x0A]
  const SEMICOLON: byte := 0x3B
  const USIZE_LIMIT := 0x1_0000_0000_0000_0000

  datatype ReadError = BadUtf8 | MalformedSize | TruncatedData | TruncatedTerminator

  // ------------------------------------------------------------- the reader

  /** Up to and including the first line feed, or everything if there is none. */
  function FirstLine(input: Bytes): (line: Bytes)
    ensures line <= input
    ensures input != [] ==> line != []
  {
    if input == [] then [] else if input[0] == LF then [LF] else [input[0]] + FirstLine(input[1..])
  }

  /** A line ends at its first line feed, or with the input. */
  lemma {:induction false} FirstLineEnds(input: Bytes, k: nat)
    requires k <= |input| && forall i :: 0 <= i < k ==> input[i] != LF
    ensures k == |input| ==> FirstLine(input) == input
    ensures k < |input| && input[k] == LF ==> FirstLine(input) == input[..k + 1]
  {
    if k == 0 {
    } else {
      var rest := input[1..];
      FirstLineEnds(rest, k - 1);
      assert input == [input[0]] + rest;
      assert k < |input| ==> input[..k + 1] == [input[0]] + rest[..k];
    }
  }

  /** A buffered reader over the bytes of a connection. */
  class Reader {
    const data: Bytes
    var pos: nat

    ghost predicate Valid()
      reads this
    {
      pos <= |data|
    }

    ghost function Rest(): Bytes
      reads this
      requires Valid()
    {
      data[pos..]
    }

    constructor (bytes: Bytes)
      ensures Valid() && Rest() == bytes
    {
      data := bytes;
      pos := 0;
    }

    /** Consume a line. Bytes that are not UTF-8 are an error, found after they were consumed. */
    method ReadLine() returns (r: Result<Bytes, ReadError>)
      requires Valid()
      modifies this
      ensures Valid()
      ensures Rest() == old(Rest())[|FirstLine(old(Rest()))|..]
      ensures r == if Decode(FirstLine(old(Rest()))).Some? then Ok(FirstLine(old(Rest()))) else Err(BadUtf8)
    {
      hide FirstLine, Decode;
      ghost var input := Rest();
      var start := pos;
      while pos < |data| && data[pos] != LF
        invariant start <= pos <= |data|
        invariant forall i :: start <= i < pos ==> data[i] != LF
        decreases |data| - pos
      {
        pos := pos + 1;
      }
      FirstLineEnds(input, pos - start);
      if pos < |data| {
        pos := pos + 1;
      }
      var line := data[start..pos];
      assert line == input[..pos - start] == FirstLine(input);
      r := if Decode(line).Some? then Ok(line) else Err(BadUtf8);
    }

    /** Exactly n bytes, or an error if fewer are left. */
    method ReadExact(n: nat) returns (r: Option<Bytes>)
      requires Valid()
      modifies this
      ensures Valid()
      ensures r.Some? <==> n <= |old(Rest())|
      ensures r.Some? ==> r.value == old(Rest())[..n] && Rest() == old(Rest())[n..]
    {
      if pos + n > |data| {
        pos := |data|;
        return None;
      }
      r := Some(data[pos..pos + n]);
      pos := pos + n;
    }
  }

  // --------------------------------------------------------- the size line

  function HexDigit(c: int): Option<nat> {
    if 0x30 <= c <= 0x39 then Some(c - 0x30)
    else if 0x41 <= c <= 0x46 then Some(c - 0x41 + 10)
    else if 0x61 <= c <= 0x66 then Some(c - 0x61 + 10)
    else None
  }

  /** The digits are the sixteen of either case, in their order. */
  lemma HexDigitMeaning(c: int, d: nat)
    ensures HexDigit(c) == Some(d)
            <==> d < 16 && (c == "0123456789abcdef"[d] as int || c == "0123456789ABCDEF"[d] as int)
  {
  }

  predicate AllHex(s: seq<int>) {
    forall i :: 0 <= i < |s| ==> HexDigit(s[i]).Some?
  }

  function HexValue(s: seq<int>): nat
    requires AllHex(s)
  {
    if s == [] then 0 else HexValue(s[..|s| - 1]) * 16 + HexDigit(s[|s| - 1]).value
  }

  function Power16(k: nat): nat {
    if k == 0 then 1 else 16 * Power16(k - 1)
  }

  /** The value is positional: each digit counts 16 times as much as the one after it. */
  lemma {:induction false} HexValueAppend(s: seq<int>, t: seq<int>)
    requires AllHex(s) && AllHex(t)
    ensures AllHex(s + t) && HexValue(s + t) == HexValue(s) * Power16(|t|) + HexValue(t)
  {
    hide HexDigit;
    if t == [] {
      assert s + t == s;
    } else {
      var k := |t| - 1;
      HexValueAppend(s, t[..k]);
      assert (s + t)[..|s + t| - 1] == s + t[..k];
    }
  }

  /** usize::from_str_radix(s, 16): an optional plus sign, at least one digit, below 2^64. */
  function ParseSize(s: seq<int>): Option<nat> {
    var digits := if s != [] && s[0] == 0x2B then s[1..] else s;
    if digits == [] || !AllHex(digits) || HexValue(digits) >= USIZE_LIMIT then None else Some(HexValue(digits))
  }

  /** One plus sign may stand before the digits; a size is below 2^64. */
  lemma SizeMeaning(s: seq<int>)
    requires s != [] && AllHex(s)
    ensures ParseSize(s) == (if HexValue(s) < 0x1_0000_0000_0000_0000 then Some(HexValue(s)) else None)
    ensures ParseSize([0x2B] + s) == ParseSize(s) && ParseSize([0x2B, 0x2B] + s) == None
    ensures ParseSize([]) == None == ParseSize([0x2B])
  {
    hide HexValue;
    assert HexDigit(0x2B) == None;
    assert HexDigit(s[0]).Some?;
    assert ([0x2B] + s)[1..] == s && ([0x2B, 0x2B] + s)[1..] == [0x2B] + s;
    assert ([0x2B] + s)[0] == 0x2B;
  }

  function BeforeSemicolon(s: seq<int>): seq<int> {
    if s == [] || s[0] == 0x3B then [] else [s[0]] + BeforeSemicolon(s[1..])
  }

  function LineSize(line: Bytes): Option<nat>
    requires Decode(line).Some?
  {
    ParseSize(BeforeSemicolon(Trim(Decode(line).value)))
  }

  // ------------------------------------------------------------ the decoder

  datatype Outcome = Done(body: Bytes, rest: Bytes) | Failed(error: ReadError)

  predicate EndsTrailers(line: Bytes) {
    line == [] || line == CRLF || line == [LF]
  }

  /** Skip lines up to and including the first empty one, or the end of input. */
  function SkipTrailers(input: Bytes): Option<Bytes>
    decreases |input|
  {
    var line := FirstLine(input);
    if Decode(line).None? then None
    else if EndsTrailers(line) then Some(input[|line|..])
    else SkipTrailers(input[|line|..])
  }

  /** The body that input encodes, after what was already read. */
  function ReadBody(input: Bytes, before: Bytes): Outcome
    decreases |input|
  {
    var line := FirstLine(input);
    var rest := input[|line|..];
    if Decode(line).None? then Failed(BadUtf8)
    else
      match LineSize(line)
      case None => Failed(MalformedSize)
      case Some(size) =>
        if size == 0 then
          match SkipTrailers(rest)
          case None => Failed(BadUtf8)
          case Some(after) => Done(before, after)
        else if |rest| < size then Failed(TruncatedData)
        else if |rest| < size + 2 then Failed(TruncatedTerminator)
        else ReadBody(rest[size + 2..], before + rest[..size])
  }

  method ReadTrailers(reader: Reader) returns (error: Option<ReadError>)
    requires reader.Valid()
    modifies reader
    ensures reader.Valid()
    ensures error == if SkipTrailers(old(reader.Rest())).Some? then None else Some(BadUtf8)
    ensures error.None? ==> reader.Rest() == SkipTrailers(old(reader.Rest())).value
  {
    while true
      invariant reader.Valid() && SkipTrailers(reader.Rest()) == SkipTrailers(old(reader.Rest()))
      decreases |reader.Rest()|
    {
      var trailer := reader.ReadLine();
      if trailer.Err? {
        return Some(trailer.error);
      }
      if EndsTrailers(trailer.value) {
        return None;
      }
    }
  }

  /** The reader yields what the decoder function says, and stands where the function stops. */
  method ReadChunkedBody(reader: Reader) returns (r: Result<Bytes, ReadError>)
    requires reader.Valid()
    modifies reader
    ensures reader.Valid()
    ensures match ReadBody(old(reader.Rest()), [])
            case Done(body, rest) => r == Ok(body) && reader.Rest() == rest
            case Failed(error) => r == Err(error)
  {
    hide LineSize, SkipTrailers, Decode, FirstLine;
    var out: Bytes := [];
    while true
      invariant reader.Valid() && ReadBody(reader.Rest(), out) == ReadBody(old(reader.Rest()), [])
      decreases |reader.Rest()|
    {
      ghost var input := reader.Rest();
      var line := reader.ReadLine();
      if line.Err? {
        return Err(line.error);
      }
      var size := LineSize(line.value);
      if size.None? {
        return Err(MalformedSize);
      }
      if size.value == 0 {
        var failed := ReadTrailers(reader);
        if failed.Some? {
          return Err(failed.value);
        }
        return Ok(out);
      }
      ghost var rest := reader.Rest();
      var data := reader.ReadExact(size.value);
      if data.None? {
        return Err(TruncatedData);
      }
      var crlf := reader.ReadExact(2);
      if crlf.None? {
        return Err(TruncatedTerminator);
      }
      assert rest[size.value..][2..] == rest[size.value + 2..];
      out := out + data.value;
    }
  }

  // ------------------------------------------------------------- the coding

  /** The line before a chunk as a sender writes it: the size in hexadecimal digits of either case, with
      any leading zeros, then spaces and tabs, and an extension that starts with a semicolon, or none. */
  datatype SizeLine = SizeLine(sizeText: Bytes, padding: Bytes, extension: Bytes)

  datatype Chunk = Chunk(line: SizeLine, data: Bytes)

  function Codes(b: Bytes): (r: seq<int>)
    ensures |r| == |b|
  {
    seq(|b|, i requires 0 <= i < |b| => b[i] as int)
  }

  predicate IsSizeText(text: Bytes, n: nat) {
    text != [] && AllHex(Codes(text)) && HexValue(Codes(text)) == n
  }

  predicate IsPadding(p: Bytes) {
    forall i :: 0 <= i < |p| ==> p[i] == 0x20 || p[i] == 0x09
  }

  /** Any bytes but a line feed: section 5.6.4 of RFC 9110 lets bytes above 0x7F stand in quoted strings. */
  predicate IsExtension(ext: Bytes) {
    ext == [] || (ext[0] == SEMICOLON && LF !in ext)
  }

  predicate IsSizeLine(l: SizeLine, n: nat) {
    IsSizeText(l.sizeText, n) && IsPadding(l.padding) && IsExtension(l.extension)
  }

  predicate IsLineEnd(eol: Bytes) {
    eol == CRLF || eol == [LF]
  }

  /** A line end, or the part of one that is left when the input stops in it. */
  predicate IsLineEndPart(eol: Bytes) {
    eol <= CRLF || eol == [LF]
  }

  predicate IsChunk(c: Chunk) {
    c.data != [] && |c.data| < USIZE_LIMIT && IsSizeLine(c.line, |c.data|)
  }

  predicate IsTrailer(t: Bytes) {
    t != [] && LF !in t
  }

  predicate IsEncoding(chunks: seq<Chunk>, last: SizeLine, trailers: seq<Bytes>) {
    && (forall i :: 0 <= i < |chunks| ==> IsChunk(chunks[i]))
    && IsSizeLine(last, 0)
    && forall i :: 0 <= i < |trailers| ==> IsTrailer(trailers[i])
  }

  function EncodeLine(l: SizeLine): Bytes {
    l.sizeText + l.padding + l.extension + CRLF
  }

  function EncodeTrailers(trailers: seq<Bytes>): Bytes {
    if trailers == [] then CRLF else (trailers[0] + CRLF) + EncodeTrailers(trailers[1..])
  }

  function Encode(chunks: seq<Chunk>, last: SizeLine, trailers: seq<Bytes>): Bytes {
    if chunks == [] then EncodeLine(last) + EncodeTrailers(trailers)
    else EncodeLine(chunks[0].line) + chunks[0].data + CRLF + Encode(chunks[1..], last, trailers)
  }

  function Datas(chunks: seq<Chunk>): Bytes {
    if chunks == [] then [] else chunks[0].data + Datas(chunks[1..])
  }

  lemma {:induction false} TrimEndKeeps(s: seq<int>, k: nat)
    requires 0 < k <= |s| && !IsWhite(s[k - 1])
    ensures |TrimEnd(s)| >= k
  {
    if |s| <= k || !IsWhite(s[|s| - 1]) {
    } else {
      TrimEndKeeps(s[..|s| - 1], k);
    }
  }

  lemma {:induction false} BeforeFirstSemicolon(s: seq<int>, k: nat)
    requires k <= |s| && (forall i :: 0 <= i < k ==> s[i] != 0x3B) && (k == |s| || s[k] == 0x3B)
    ensures BeforeSemicolon(s) == s[..k]
  {
    if k == 0 {
    } else {
      BeforeFirstSemicolon(s[1..], k - 1);
      assert s[..k] == [s[0]] + s[1..][..k - 1];
    }
  }

  lemma {:induction false} TrimEndWhite(text: seq<int>, white: seq<int>)
    requires text != [] && !IsWhite(text[|text| - 1]) && forall i :: 0 <= i < |white| ==> IsWhite(white[i])
    ensures TrimEnd(text + white) == text
  {
    hide IsWhite;
    if white == [] {
      assert text + white == text;
    } else {
      var k := |white| - 1;
      assert (text + white)[..|text| + k] == text + white[..k];
      TrimEndWhite(text, white[..k]);
    }
  }

  /** Of a line, only what comes before the extension is read as the size, together with the padding if
      there is an extension. */
  lemma SizePart(text: seq<int>, pad: seq<int>, ext: seq<int>, eol: seq<int>)
    requires text != [] && forall i :: 0 <= i < |text| ==> !IsWhite(text[i]) && text[i] != 0x3B
    requires forall i :: 0 <= i < |pad| ==> IsWhite(pad[i]) && pad[i] != 0x3B
    requires forall i :: 0 <= i < |eol| ==> IsWhite(eol[i])
    requires ext == [] || ext[0] == 0x3B
    ensures BeforeSemicolon(Trim(text + pad + ext + eol)) == if ext == [] then text else text + pad
  {
    hide TrimEnd, BeforeSemicolon;
    var d, k := text + pad + ext + eol, |text + pad|;
    assert TrimStart(d) == d;
    assert !IsWhite(0x3B);
    hide IsWhite;
    if ext == [] {
      assert d == text + (pad + eol);
      TrimEndWhite(text, pad + eol);
      BeforeFirstSemicolon(text, |text|);
    } else {
      var t := TrimEnd(d);
      assert d[k] == ext[0] && d[..k] == text + pad;
      TrimEndKeeps(d, k + 1);
      assert t[..k] == text + pad;
      BeforeFirstSemicolon(t, k);
    }
  }

  lemma {:induction false} DecodeLine(text: Bytes, ext: Bytes, eol: Bytes)
    requires (forall i :: 0 <= i < |text| ==> text[i] < 0x80) && IsLineEndPart(eol)
    ensures Decode(text + ext + eol).Some? <==> Decode(ext).Some?
    ensures Decode(ext).Some? ==> Decode(text + ext + eol) == Some(Codes(text) + Decode(ext).value + Codes(eol))
  {
    hide Decode;
    DecodeAscii(text);
    DecodeAscii(eol);
    DecodeTail(text, ext);
    DecodeSplit(text + ext, eol);
    if Decode(ext).Some? {
      assert Decode(text).value == Codes(text) && Decode(eol).value == Codes(eol);
      DecodeAppend(text, ext);
      DecodeAppend(text + ext, eol);
    }
  }

  lemma ExtensionStart(ext: Bytes)
    requires IsExtension(ext) && Decode(ext).Some?
    ensures ext == [] <==> Decode(ext).value == []
    ensures ext != [] ==> Decode(ext).value[0] == 0x3B
  {
  }

  lemma LineUpToFeed(front: Bytes, eol: Bytes, after: Bytes)
    requires LF !in front && IsLineEnd(eol)
    ensures FirstLine(front + eol + after) == front + eol
  {
    var input := front + eol + after;
    var k := |front| + |eol| - 1;
    assert forall i :: 0 <= i < |front| ==> input[i] == front[i];
    assert input[..k + 1] == front + eol;
    FirstLineEnds(input, k);
  }

  lemma HexIsPlain(text: Bytes)
    requires AllHex(Codes(text))
    ensures LF !in text && forall i :: 0 <= i < |text| ==>
      text[i] < 0x80 && !IsWhite(text[i] as int) && text[i] != SEMICOLON
  {
    forall i | 0 <= i < |text|
      ensures text[i] < 0x80 && !IsWhite(text[i] as int) && text[i] != SEMICOLON && text[i] != LF
    {
      assert HexDigit(Codes(text)[i]).Some?;
    }
  }

  /** A blank among the digits is no size. */
  lemma PaddedSize(text: Bytes, pad: Bytes)
    requires text != [] && AllHex(Codes(text)) && IsPadding(pad)
    ensures Codes(text + pad) == Codes(text) + Codes(pad)
    ensures ParseSize(Codes(text + pad)) == if pad == [] then ParseSize(Codes(text)) else None
  {
    hide HexValue;
    var codes := Codes(text + pad);
    if pad == [] {
      assert text + pad == text;
    } else {
      assert codes[0] == Codes(text)[0] && HexDigit(codes[0]).Some?;
      assert codes[|text|] == pad[0] as int && HexDigit(codes[|text|]).None?;
    }
  }

  /** What a line, or the part of one that is left of it, reads as: not at all if its extension is not
      UTF-8, no size if there is padding before the extension, and otherwise the size it spells. */
  lemma LineRead(text: Bytes, pad: Bytes, ext: Bytes, eol: Bytes)
    requires text != [] && AllHex(Codes(text)) && IsPadding(pad) && IsExtension(ext) && IsLineEndPart(eol)
    ensures var line := text + pad + ext + eol;
            && (Decode(line).Some? <==> Decode(ext).Some?)
            && (Decode(line).Some? ==>
                  LineSize(line) == if pad != [] && ext != [] then None else ParseSize(Codes(text)))
  {
    hide Decode, ParseSize;
    HexIsPlain(text);
    DecodeLine(text + pad, ext, eol);
    if Decode(ext).Some? {
      ExtensionStart(ext);
      PaddedSize(text, pad);
      SizePart(Codes(text), Codes(pad), Decode(ext).value, Codes(eol));
    }
  }

  lemma LineHasNoFeed(l: SizeLine, n: nat)
    requires IsSizeLine(l, n)
    ensures LF !in l.sizeText + l.padding + l.extension
  {
    HexIsPlain(l.sizeText);
  }

  /** A size line of the coding, whatever follows it; a bare line feed will do. It is read as its size
      unless its extension is not UTF-8, has blanks before it, or the size does not fit. */
  lemma SizeLineRead(l: SizeLine, eol: Bytes, n: nat, after: Bytes)
    requires IsSizeLine(l, n) && IsLineEnd(eol)
    ensures var line := l.sizeText + l.padding + l.extension + eol;
            && FirstLine(line + after) == line
            && (Decode(line).Some? <==> Decode(l.extension).Some?)
            && (Decode(line).Some? ==>
                  LineSize(line)
                  == if (l.padding != [] && l.extension != []) || n >= USIZE_LIMIT then None else Some(n))
  {
    hide Decode, HexValue, LineSize;
    LineHasNoFeed(l, n);
    LineUpToFeed(l.sizeText + l.padding + l.extension, eol, after);
    LineRead(l.sizeText, l.padding, l.extension, eol);
    HexIsPlain(l.sizeText);
    assert Codes(l.sizeText)[0] == l.sizeText[0] as int && HexDigit(Codes(l.sizeText)[0]).Some?;
  }

  // ------------------------------------------------------- what is refused

  /** Why the reader refuses a size line, if it does. */
  function LineFault(l: SizeLine): Option<ReadError> {
    if Decode(l.extension).None? then Some(BadUtf8)
    else if l.padding != [] && l.extension != [] then Some(MalformedSize)
    else None
  }

  predicate AllText(trailers: seq<Bytes>) {
    forall i :: 0 <= i < |trailers| ==> Decode(trailers[i]).Some?
  }

  /** The first fault that the reader meets in an encoding. */
  function FirstFault(chunks: seq<Chunk>, last: SizeLine, trailers: seq<Bytes>): Option<ReadError> {
    if chunks == [] then
      if LineFault(last).Some? then LineFault(last) else if AllText(trailers) then None else Some(BadUtf8)
    else if LineFault(chunks[0].line).Some? then LineFault(chunks[0].line)
    else FirstFault(chunks[1..], last, trailers)
  }

  /** Trailers are skipped to just after the empty line exactly when all of them are UTF-8. */
  lemma {:induction false} TrailersRead(trailers: seq<Bytes>, after: Bytes)
    requires forall i :: 0 <= i < |trailers| ==> IsTrailer(trailers[i])
    ensures SkipTrailers(EncodeTrailers(trailers) + after) == if AllText(trailers) then Some(after) else None
    decreases |trailers|
  {
    hide Decode, FirstLine;
    var input := EncodeTrailers(trailers) + after;
    DecodeAscii(CRLF);
    if trailers == [] {
      assert [] + CRLF + after == input && [] + CRLF == CRLF;
      LineUpToFeed([], CRLF, after);
      assert input[2..] == after;
    } else {
      var t, rest := trailers[0], EncodeTrailers(trailers[1..]) + after;
      assert IsTrailer(t);
      assert input == t + CRLF + rest;
      LineUpToFeed(t, CRLF, rest);
      DecodeSplit(t, CRLF);
      assert input[|t + CRLF|..] == rest;
      TrailersRead(trailers[1..], after);
      assert |t + CRLF| > 2;
      assert AllText(trailers) <==> Decode(t).Some? && AllText(trailers[1..]) by { AllTextStep(trailers); }
    }
  }

  lemma AllTextStep(trailers: seq<Bytes>)
    requires trailers != []
    ensures AllText(trailers) <==> Decode(trailers[0]).Some? && AllText(trailers[1..])
  {
    hide Decode;
    if Decode(trailers[0]).Some? && AllText(trailers[1..]) {
      assert forall i :: 1 <= i < |trailers| ==> trailers[i] == trailers[1..][i - 1];
    }
  }

  /** A chunk whose line is fine adds its data. The two bytes after the data are skipped unseen: any two
      give the same result. */
  lemma TerminatorUnchecked(c: Chunk, end: Bytes, after: Bytes, before: Bytes)
    requires IsChunk(c) && |end| == 2
    ensures ReadBody(EncodeLine(c.line) + (c.data + end + after), before)
            == if LineFault(c.line).Some? then Failed(LineFault(c.line).value) else ReadBody(after, before + c.data)
  {
    hide Decode, FirstLine, LineSize, IsSizeLine, SkipTrailers;
    var line, rest := EncodeLine(c.line), c.data + end + after;
    SizeLineRead(c.line, CRLF, |c.data|, rest);
    var input := line + rest;
    assert input[|line|..] == rest && rest[..|c.data|] == c.data && rest[|c.data| + 2..] == after;
  }

  lemma {:induction false} LastChunkRead(last: SizeLine, trailers: seq<Bytes>, after: Bytes, before: Bytes)
    requires IsEncoding([], last, trailers)
    ensures ReadBody(EncodeLine(last) + (EncodeTrailers(trailers) + after), before)
            == match FirstFault([], last, trailers)
               case None => Done(before, after)
               case Some(fault) => Failed(fault)
  {
    hide Decode, FirstLine, LineSize, IsSizeLine, SkipTrailers, AllText;
    var line, rest := EncodeLine(last), EncodeTrailers(trailers) + after;
    SizeLineRead(last, CRLF, 0, rest);
    assert (line + rest)[|line|..] == rest;
    TrailersRead(trailers, after);
  }

  /** The reader inverts the coding up to the first fault: for any non-empty chunks, any way of writing
      their sizes, any extensions and any trailers, it returns the data and stops exactly after the final
      empty line, unless a line is not UTF-8 or has blanks between its size and its extension; then it
      fails with the fault of the first such line. */
  lemma {:induction false} DecodesEncoding(chunks: seq<Chunk>, last: SizeLine, trailers: seq<Bytes>, after: Bytes,
      before: Bytes)
    requires IsEncoding(chunks, last, trailers)
    ensures ReadBody(Encode(chunks, last, trailers) + after, before)
            == match FirstFault(chunks, last, trailers)
               case None => Done(before + Datas(chunks), after)
               case Some(fault) => Failed(fault)
    decreases |chunks|
  {
    hide ReadBody, LineFault, AllText, EncodeLine;
    var input := Encode(chunks, last, trailers) + after;
    if chunks == [] {
      assert input == EncodeLine(last) + (EncodeTrailers(trailers) + after);
      LastChunkRead(last, trailers, after, before);
      assert before + [] == before;
    } else {
      var c, tail := chunks[0], Encode(chunks[1..], last, trailers) + after;
      assert input == EncodeLine(c.line) + (c.data + CRLF + tail);
      TerminatorUnchecked(c, CRLF, tail, before);
      DecodesEncoding(chunks[1..], last, trailers, after, before + c.data);
      assert before + c.data + Datas(chunks[1..]) == before + (c.data + Datas(chunks[1..]));
    }
  }

  /** So an encoding is read if and only if all its extensions and trailers are UTF-8 and no extension has
      blanks before it. */
  lemma {:induction false} ReadIffPlain(chunks: seq<Chunk>, last: SizeLine, trailers: seq<Bytes>, after: Bytes,
      before: Bytes)
    requires IsEncoding(chunks, last, trailers)
    ensures ReadBody(Encode(chunks, last, trailers) + after, before).Done?
            <==> (forall i :: 0 <= i < |chunks| ==> IsPlain(chunks[i].line)) && IsPlain(last) && AllText(trailers)
  {
    hide ReadBody, IsPlain, AllText, LineFault;
    DecodesEncoding(chunks, last, trailers, after, before);
    NoFault(chunks, last, trailers);
  }

  predicate IsPlain(l: SizeLine) {
    Decode(l.extension).Some? && (l.padding == [] || l.extension == [])
  }

  lemma {:induction false} NoFault(chunks: seq<Chunk>, last: SizeLine, trailers: seq<Bytes>)
    ensures FirstFault(chunks, last, trailers).None?
            <==> (forall i :: 0 <= i < |chunks| ==> IsPlain(chunks[i].line)) && IsPlain(last) && AllText(trailers)
    decreases |chunks|
  {
    hide Decode, AllText;
    if chunks == [] {
    } else {
      NoFault(chunks[1..], last, trailers);
      assert forall i :: 1 <= i < |chunks| ==> chunks[i] == chunks[1..][i - 1];
      assert forall i :: 0 <= i < |chunks| - 1 ==> chunks[1..][i] == chunks[i + 1];
    }
  }

  // ------------------------------------------------ every size can be written

  function HexText(n: nat): (text: Bytes)
    ensures text != []
  {
    var d: byte := if n % 16 < 10 then 0x30 + n % 16 else 0x61 + n % 16 - 10;
    if n < 16 then [d] else HexText(n / 16) + [d]
  }

  /** So every list of chunks has an encoding. */
  lemma {:induction false} HexTextIsSize(n: nat)
    ensures IsSizeText(HexText(n), n)
  {
    var text := HexText(n);
    var codes, k := Codes(text), |text| - 1;
    if n < 16 {
      assert codes[..k] == [];
    } else {
      HexTextIsSize(n / 16);
      assert text[..k] == HexText(n / 16);
      assert codes[..k] == Codes(HexText(n / 16));
    }
    forall i | 0 <= i < |codes| ensures HexDigit(codes[i]).Some? {
      if i < k { assert codes[i] == codes[..k][i]; }
    }
    assert HexDigit(codes[k]) == Some(n % 16);
  }

  // --------------------------------------------------- where it is not the RFC

  /** Section 7.1.1 of RFC 9112 lets white space stand before the semicolon of an extension; this reader
      refuses it. */
  lemma SpaceBeforeExtensionRefused(l: SizeLine, n: nat, after: Bytes, before: Bytes)
    requires IsSizeLine(l, n) && l.padding != [] && l.extension != []
    ensures ReadBody(EncodeLine(l) + after, before)
            == Failed(if Decode(l.extension).Some? then MalformedSize else BadUtf8)
  {
    hide Decode, LineSize, FirstLine, IsSizeLine;
    SizeLineRead(l, CRLF, n, after);
  }

  /** Section 5.5 of RFC 9110 lets bytes above 0x7F stand in a trailer field; this reader refuses those
      that are not UTF-8, such as "X: " and the byte 0xE9 after an empty body. */
  lemma ObsTextRefused(before: Bytes)
    ensures var input: Bytes := [0x30] + CRLF + [0x58, 0x3A, 0x20, 0xE9] + CRLF + CRLF;
            ReadBody(input, before) == Failed(BadUtf8)
  {
    hide ReadBody;
    var input: Bytes := [0x30] + CRLF + [0x58, 0x3A, 0x20, 0xE9] + CRLF + CRLF;
    var last, t: Bytes := SizeLine([0x30], [], []), [0x58, 0x3A, 0x20, 0xE9];
    EmptyBodyLine(last);
    assert [t][1..] == [];
    assert EncodeTrailers([t]) == t + CRLF + EncodeTrailers([]) == t + CRLF + CRLF;
    assert EncodeLine(last) == [0x30] + CRLF;
    assert Encode([], last, [t]) + [] == input;
    NotText();
    DecodesEncoding([], last, [t], [], before);
  }

  lemma EmptyBodyLine(last: SizeLine)
    requires last == SizeLine([0x30], [], [])
    ensures IsSizeLine(last, 0)
  {
    assert Codes([0x30]) == [0x30];
    assert [0x30][..0] == [];
    assert HexValue([0x30]) == 0;
  }

  lemma NotText()
    ensures Decode([0x58, 0x3A, 0x20, 0xE9]).None?
  {
    DecodeAscii([0x58, 0x3A, 0x20]);
    DecodeTail([0x58, 0x3A, 0x20], [0xE9]);
    assert [0x58, 0x3A, 0x20] + [0xE9] == [0x58, 0x3A, 0x20, 0xE9];
    assert CharLength([0xE9]) == 0;
  }

  /** A stream that stops right after the line of the last chunk counts as complete. */
  lemma EndOfInputEndsTrailers(last: SizeLine, before: Bytes)
    requires IsSizeLine(last, 0) && IsPlain(last)
    ensures ReadBody(EncodeLine(last), before) == Done(before, [])
  {
    hide LineSize, IsSizeLine;
    var line := EncodeLine(last);
    SizeLineRead(last, CRLF, 0, []);
    assert line + [] == line && line[|line|..] == [];
    assert SkipTrailers([]) == Some([]);
  }
}
