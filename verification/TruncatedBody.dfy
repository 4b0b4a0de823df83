/** Which truncated chunked bodies read_chunked_body in engine/src/main.rs takes for complete. A cut falls
    in a size line, in the data of a chunk, in the last chunk or in the trailers, and each of these is read
    in its own way. */
module TruncatedBody {
  import opened Ordering
  import opened Results
  import opened Utf8
  import opened ChunkedBody

  /** A chunk with its line, data and terminator. */
  function EncodeChunk(c: Chunk): Bytes {
    EncodeLine(c.line) + c.data + CRLF
  }

  /** From the first byte of the last chunk on, any valid text will do, unless it shows that blanks stand
      before the extension of the last chunk. */
  predicate LastWillDo(last: SizeLine, t: Bytes) {
    && t != [] && Decode(t).Some?
    && (last.padding == [] || last.extension == [] || |t| <= |last.sizeText + last.padding|)
  }

  /** What is read from the first bytes t of an encoding: the whole chunks and then, inside the size of
      the next chunk, nothing more if only zeros of it are left. */
  function CutBody(chunks: seq<Chunk>, last: SizeLine, t: Bytes): Option<Bytes> {
    if chunks == [] then
      if LastWillDo(last, t) then Some([]) else None
    else
      var c, head := chunks[0], EncodeChunk(chunks[0]);
      if head <= t then
        if LineFault(c.line).Some? then None
        else
          match CutBody(chunks[1..], last, t[|head|..])
          case None => None
          case Some(body) => Some(c.data + body)
      else if t != [] && t <= c.line.sizeText && AllHex(Codes(t)) && HexValue(Codes(t)) == 0 then Some([])
      else None
  }

  /** The first bytes of a size line: part of the size, or all of it and part of what follows. */
  datatype Part = Part(size: Bytes, pad: Bytes, tail: Bytes, eol: Bytes)

  predicate IsLinePart(l: SizeLine, t: Bytes, p: Part) {
    && t == p.size + p.pad + p.tail + p.eol
    && p.size <= l.sizeText && p.pad <= l.padding && p.tail <= l.extension && p.eol <= CRLF
    && (p.pad + p.tail + p.eol != [] ==> p.size == l.sizeText)
    && (p.tail + p.eol != [] ==> p.pad == l.padding)
    && (p.eol != [] ==> p.tail == l.extension)
  }

  lemma SplitLinePart(l: SizeLine, t: Bytes) returns (p: Part)
    requires t <= EncodeLine(l)
    ensures IsLinePart(l, t, p)
  {
    var line, a, b := EncodeLine(l), |l.sizeText|, |l.sizeText + l.padding|;
    var c := b + |l.extension|;
    assert t == line[..|t|];
    assert line[..a] == l.sizeText && line[a..b] == l.padding && line[b..c] == l.extension && line[c..] == CRLF;
    if |t| <= a {
      p := Part(t, [], [], []);
      assert t == line[..a][..|t|];
    } else if |t| <= b {
      p := Part(l.sizeText, t[a..], [], []);
      assert t[..a] == line[..a] && t[a..] == line[a..b][..|t| - a];
    } else if |t| <= c {
      p := Part(l.sizeText, l.padding, t[b..], []);
      assert t[..a] == line[..a] && t[a..b] == line[a..b] && t[b..] == line[b..c][..|t| - b];
    } else {
      p := Part(l.sizeText, l.padding, l.extension, t[c..]);
      assert t[..a] == line[..a] && t[a..b] == line[a..b] && t[b..c] == line[b..c] && t[c..] == line[c..][..|t| - c];
    }
  }

  lemma {:induction false} HexPrefix(text: Bytes, k: nat)
    requires k <= |text| && AllHex(Codes(text))
    ensures AllHex(Codes(text[..k])) && HexValue(Codes(text[..k])) <= HexValue(Codes(text))
  {
    var n := |text|;
    assert Codes(text[..k]) == Codes(text)[..k];
    if k == n {
      assert text[..k] == text;
    } else {
      assert Codes(text[..n - 1]) == Codes(text)[..n - 1] && text[..n - 1][..k] == text[..k];
      HexPrefix(text[..n - 1], k);
    }
  }

  /** A line that stops early still reads as the digits that are left of its size. */
  lemma LinePartRead(l: SizeLine, n: nat, t: Bytes, p: Part)
    requires IsSizeLine(l, n) && n < USIZE_LIMIT && t != [] && IsLinePart(l, t, p)
    ensures p.size != [] && AllHex(Codes(p.size)) && HexValue(Codes(p.size)) <= n
    ensures Decode(t).Some? <==> Decode(p.tail).Some?
    ensures Decode(t).Some? ==>
      LineSize(t) == if p.pad != [] && p.tail != [] then None else Some(HexValue(Codes(p.size)))
  {
    hide Decode, HexValue, LineSize;
    assert p.size != [];
    assert p.size == l.sizeText[..|p.size|];
    HexPrefix(l.sizeText, |p.size|);
    HexIsPlain(p.size);
    assert HexDigit(Codes(p.size)[0]).Some?;
    assert p.tail != [] ==> p.tail[0] == l.extension[0];
    LineRead(p.size, p.pad, p.tail, p.eol);
  }

  lemma OneLine(t: Bytes)
    requires LF !in t
    ensures FirstLine(t) == t && t[|t|..] == []
  {
    FirstLineEnds(t, |t|);
  }

  lemma NoFeedInPart(l: SizeLine, n: nat, t: Bytes)
    requires IsSizeLine(l, n) && t < EncodeLine(l)
    ensures LF !in t
  {
    LineHasNoFeed(l, n);
    var line := EncodeLine(l);
    var front := l.sizeText + l.padding + l.extension;
    forall i | 0 <= i < |t| ensures t[i] != LF {
      assert t[i] == line[i];
      assert i < |front| ==> line[i] == front[i];
    }
  }

  lemma NothingToSkip()
    ensures SkipTrailers([]) == Some([])
  {
  }

  /** A stream that stops in the trailers counts as complete, unless what there is of them is not UTF-8. */
  lemma {:induction false} TrailersCut(trailers: seq<Bytes>, p: Bytes)
    requires forall i :: 0 <= i < |trailers| ==> IsTrailer(trailers[i])
    requires p <= EncodeTrailers(trailers)
    ensures SkipTrailers(p) == if Decode(p).Some? then Some([]) else None
    decreases |trailers|
  {
    hide Decode, FirstLine;
    NothingToSkip();
    var t: Bytes := if trailers == [] then [] else trailers[0];
    var line := t + CRLF;
    assert LF !in t by { if trailers != [] { assert IsTrailer(trailers[0]); } }
    assert line <= EncodeTrailers(trailers);
    DecodeAscii([]);
    if |p| < |line| {
      assert forall i :: 0 <= i < |p| ==> p[i] == line[i];
      OneLine(p);
    } else {
      var p' := p[|line|..];
      assert p[..|line|] == line && p == line + p';
      LineUpToFeed(t, CRLF, p');
      LineAndRest(t, p');
      if trailers == [] {
        assert p' == [];
      } else {
        assert p' <= EncodeTrailers(trailers[1..]);
        TrailersCut(trailers[1..], p');
        assert |line| > 2;
      }
    }
  }

  lemma LineAndRest(front: Bytes, rest: Bytes)
    ensures Decode(front + CRLF).Some? <==> Decode(front).Some?
    ensures Decode(front + CRLF + rest).Some? <==> Decode(front).Some? && Decode(rest).Some?
  {
    hide Decode;
    DecodeAscii(CRLF);
    DecodeSplit(front, CRLF);
    DecodeSplit(front, CRLF + rest);
    DecodeTail(CRLF, rest);
    assert front + CRLF + rest == front + (CRLF + rest);
  }

  lemma {:induction false} LastCut(last: SizeLine, trailers: seq<Bytes>, t: Bytes, before: Bytes)
    requires IsEncoding([], last, trailers) && t <= EncodeLine(last) + EncodeTrailers(trailers)
    ensures if LastWillDo(last, t) then ReadBody(t, before) == Done(before, []) else ReadBody(t, before).Failed?
  {
    hide Decode, FirstLine, LineSize, IsSizeLine, SkipTrailers;
    NothingToSkip();
    var line := EncodeLine(last);
    if t == [] {
      EmptyRefused(before);
    } else if |t| < |line| {
      assert t == (line + EncodeTrailers(trailers))[..|t|] == line[..|t|];
      LastLineCut(last, t, before);
    } else {
      var p := t[|line|..];
      assert t == line + p && p <= EncodeTrailers(trailers);
      SizeLineRead(last, CRLF, 0, p);
      LineAndRest(last.sizeText + last.padding + last.extension, p);
      TrailersCut(trailers, p);
    }
  }

  lemma {:induction false} LastLineCut(last: SizeLine, t: Bytes, before: Bytes)
    requires IsSizeLine(last, 0) && t != [] && t < EncodeLine(last)
    ensures if LastWillDo(last, t) then ReadBody(t, before) == Done(before, []) else ReadBody(t, before).Failed?
  {
    hide Decode, FirstLine, LineSize, IsSizeLine, SkipTrailers, HexValue;
    NothingToSkip();
    NoFeedInPart(last, 0, t);
    OneLine(t);
    var p := SplitLinePart(last, t);
    LinePartRead(last, 0, t, p);
    assert p.tail + p.eol == [] ==> |t| <= |last.sizeText + last.padding|;
    assert p.tail + p.eol != [] ==> p.size + p.pad == last.sizeText + last.padding;
    assert |t| > |last.sizeText + last.padding| && last.extension != [] ==> p.tail != [];
  }

  lemma EmptyRefused(before: Bytes)
    ensures ReadBody([], before) == Failed(MalformedSize)
  {
  }

  /** Inside a chunk only a cut within leading zeros of its size is taken for the end. */
  lemma {:induction false} ChunkCut(c: Chunk, t: Bytes, before: Bytes)
    requires IsChunk(c) && t < EncodeChunk(c)
    ensures if t != [] && t <= c.line.sizeText && AllHex(Codes(t)) && HexValue(Codes(t)) == 0
            then ReadBody(t, before) == Done(before, []) else ReadBody(t, before).Failed?
  {
    hide Decode, FirstLine, LineSize, IsSizeLine, SkipTrailers, HexValue;
    var line := EncodeLine(c.line);
    if t == [] {
      EmptyRefused(before);
    } else if |t| < |line| {
      assert t == EncodeChunk(c)[..|t|] == line[..|t|];
      ChunkLineCut(c, t, before);
    } else {
      var p := t[|line|..];
      assert t == line + p;
      assert |p| < |c.data| + 2;
      SizeLineRead(c.line, CRLF, |c.data|, p);
      SizeTextFirst(c.line, |c.data|);
    }
  }

  lemma SizeTextFirst(l: SizeLine, n: nat)
    requires IsSizeLine(l, n)
    ensures |EncodeLine(l)| > |l.sizeText|
  {
  }

  lemma {:induction false} ChunkLineCut(c: Chunk, t: Bytes, before: Bytes)
    requires IsChunk(c) && t != [] && t < EncodeLine(c.line)
    ensures if t <= c.line.sizeText && AllHex(Codes(t)) && HexValue(Codes(t)) == 0
            then ReadBody(t, before) == Done(before, []) else ReadBody(t, before).Failed?
  {
    hide Decode, FirstLine, LineSize, SkipTrailers, HexValue;
    NothingToSkip();
    NoFeedInPart(c.line, |c.data|, t);
    OneLine(t);
    var p := SplitLinePart(c.line, t);
    LinePartRead(c.line, |c.data|, t, p);
    DecodeAscii([]);
    if t <= c.line.sizeText {
      assert p.pad + p.tail + p.eol != [] ==> p.size == c.line.sizeText;
      assert |p.size| == |t|;
      assert p.size == t && p.tail == [];
    } else {
      assert p.pad + p.tail + p.eol == [] ==> t == p.size;
    }
  }

  /** Of the prefixes of an encoding, exactly those with a CutBody are taken for complete bodies. */
  lemma {:induction false} CutRead(chunks: seq<Chunk>, last: SizeLine, trailers: seq<Bytes>, t: Bytes, before: Bytes)
    requires IsEncoding(chunks, last, trailers) && t <= Encode(chunks, last, trailers)
    ensures match CutBody(chunks, last, t)
            case Some(body) => ReadBody(t, before) == Done(before + body, [])
            case None => ReadBody(t, before).Failed?
    decreases |chunks|
  {
    hide ReadBody, Decode, IsChunk, IsSizeLine, HexValue, AllHex, LineFault, LastWillDo;
    if chunks == [] {
      LastCut(last, trailers, t, before);
      assert before + [] == before;
    } else {
      var c, head := chunks[0], EncodeChunk(chunks[0]);
      assert IsChunk(c);
      var more := Encode(chunks[1..], last, trailers);
      assert Encode(chunks, last, trailers) == head + more;
      hide Encode, EncodeChunk, EncodeLine;
      if head <= t {
        var t' := t[|head|..];
        SplitHead(c, more, t);
        TerminatorUnchecked(c, CRLF, t', before);
        CutRead(chunks[1..], last, trailers, t', before + c.data);
        if CutBody(chunks[1..], last, t').Some? {
          var body := CutBody(chunks[1..], last, t').value;
          assert before + c.data + body == before + (c.data + body);
        }
      } else {
        assert t < head by { PrefixOfSum(t, head, more); }
        ChunkCut(c, t, before);
        assert before + [] == before;
      }
    }
  }

  lemma SplitHead(c: Chunk, more: Bytes, t: Bytes)
    requires EncodeChunk(c) <= t <= EncodeChunk(c) + more
    ensures var t' := t[|EncodeChunk(c)|..];
            t' <= more && t == EncodeLine(c.line) + (c.data + CRLF + t')
  {
    var head := EncodeChunk(c);
    var t' := t[|head|..];
    assert t == head + t' && t' == (head + more)[|head|..|t|];
  }

  lemma PrefixOfSum(t: Bytes, a: Bytes, b: Bytes)
    requires t <= a + b
    ensures a <= t || t < a
  {
    if |t| < |a| {
      assert t == (a + b)[..|t|] == a[..|t|];
    } else {
      assert t[..|a|] == (a + b)[..|a|] == a;
    }
  }

  lemma PrefixOfParts(a: Bytes, b: Bytes, t: Bytes)
    ensures a + b <= t ==> a <= t
  {
    if a + b <= t {
      assert t[..|a|] == (a + b)[..|a|] == a;
    }
  }

  function EncodeChunks(chunks: seq<Chunk>): Bytes {
    if chunks == [] then [] else EncodeChunk(chunks[0]) + EncodeChunks(chunks[1..])
  }

  /** When no size is written with a leading zero, a truncated body is taken for complete exactly when all
      chunks are there, none has a fault, and something of the last chunk is left that will do; then no
      data is missing. */
  lemma {:induction false} NothingLost(chunks: seq<Chunk>, last: SizeLine, trailers: seq<Bytes>, t: Bytes)
    requires IsEncoding(chunks, last, trailers) && t <= Encode(chunks, last, trailers)
    requires forall i :: 0 <= i < |chunks| ==> chunks[i].line.sizeText[0] != 0x30
    ensures ReadBody(t, []).Done? <==> WholeChunks(chunks, last, t)
    ensures ReadBody(t, []).Done? ==> ReadBody(t, []) == Done(Datas(chunks), [])
  {
    hide ReadBody, Decode, LastWillDo, LineFault;
    CutRead(chunks, last, trailers, t, []);
    WholeOrNothing(chunks, last, t);
    assert [] + Datas(chunks) == Datas(chunks);
  }

  predicate WholeChunks(chunks: seq<Chunk>, last: SizeLine, t: Bytes) {
    && (forall i :: 0 <= i < |chunks| ==> IsPlain(chunks[i].line))
    && EncodeChunks(chunks) <= t && LastWillDo(last, t[|EncodeChunks(chunks)|..])
  }

  lemma {:induction false} WholeOrNothing(chunks: seq<Chunk>, last: SizeLine, t: Bytes)
    requires forall i :: 0 <= i < |chunks| ==> IsChunk(chunks[i]) && chunks[i].line.sizeText[0] != 0x30
    ensures CutBody(chunks, last, t) == if WholeChunks(chunks, last, t) then Some(Datas(chunks)) else None
    decreases |chunks|
  {
    hide Decode, EncodeChunk, IsChunk, LastWillDo;
    if chunks == [] {
      assert t[0..] == t;
    } else {
      var c, head, more := chunks[0], EncodeChunk(chunks[0]), EncodeChunks(chunks[1..]);
      assert IsChunk(c);
      PrefixOfParts(head, more, t);
      if head <= t {
        var t' := t[|head|..];
        assert t == head + t';
        WholeOrNothing(chunks[1..], last, t');
        assert head + more <= t <==> more <= t' by {
          if head + more <= t { assert t'[..|more|] == t[|head|..|head| + |more|] == more; }
          if more <= t' { assert t[..|head| + |more|] == head + more; }
        }
        assert more <= t' ==> t'[|more|..] == t[|head + more|..];
        AllPlain(chunks);
      } else {
        if t != [] && t <= c.line.sizeText {
          NonZeroStart(c, t);
        }
      }
    }
  }

  lemma AllPlain(chunks: seq<Chunk>)
    requires chunks != []
    ensures (forall i :: 0 <= i < |chunks| ==> IsPlain(chunks[i].line))
            <==> LineFault(chunks[0].line).None? && forall i :: 0 <= i < |chunks[1..]| ==> IsPlain(chunks[1..][i].line)
  {
    hide Decode;
    assert forall i :: 0 <= i < |chunks| - 1 ==> chunks[1..][i] == chunks[i + 1];
    assert forall i :: 1 <= i < |chunks| ==> chunks[i] == chunks[1..][i - 1];
  }

  lemma {:induction false} NonZeroStart(c: Chunk, t: Bytes)
    requires IsChunk(c) && t != [] && t <= c.line.sizeText && c.line.sizeText[0] != 0x30
    ensures AllHex(Codes(t)) ==> HexValue(Codes(t)) > 0
  {
    assert t == c.line.sizeText[..|t|];
    HexPrefix(c.line.sizeText, |t|);
    HexPrefix(t, 1);
    assert t[..1] == [t[0]] && t[0] == c.line.sizeText[0];
    assert HexDigit(Codes(t)[0]).Some?;
    var one := Codes(t[..1]);
    assert one[..0] == [];
    assert HexValue(one) == HexDigit(one[0]).value;
  }
}
