/** Versioned records and the in-memory chains of the append-only store
    (engine/src/versioning/types.rs and store.rs). */
module Versions {
  import opened Ordering
  import opened Results

  /** SHA-256 printed as hex, as a parameter: any function from byte strings to byte strings. */
  type Hasher = Bytes -> Bytes

  datatype EntityType =
    | Holdings | Position | DecisionEntry | CalibrationRecord | KnowledgeChunk
    | KnowledgeAnnotation | Configuration | StressTestConfig | MonteCarloConfig | CarrySnapshot

  datatype VersionAuthor = User | System | DataFeed(name: string)

  datatype Metadata = Metadata(changeSummary: Option<string>, contentSizeBytes: nat, tags: seq<string>)

  datatype Record = Record(
    hash: Bytes, entityId: Bytes, entityType: EntityType, version: nat, author: VersionAuthor,
    createdAt: int, content: Bytes, nonce: Bytes, metadata: Metadata, parent: Option<Bytes>)

  const U64: nat := 0x1_0000_0000_0000_0000

  // ---------------------------------------------------------- the hash

  function LittleEndian(v: nat, width: nat): (r: Bytes)
    ensures |r| == width
  {
    if width == 0 then [] else [v % 256] + LittleEndian(v / 256, width - 1)
  }

  function Power256(width: nat): (p: nat)
    ensures p > 0
  {
    if width == 0 then 1 else 256 * Power256(width - 1)
  }

  lemma {:induction false} LittleEndianInjective(v: nat, w: nat, width: nat)
    requires v < Power256(width) && w < Power256(width) && LittleEndian(v, width) == LittleEndian(w, width)
    ensures v == w
  {
    if width == 0 {
    } else {
      assert LittleEndian(v, width)[0] == v % 256 && LittleEndian(w, width)[0] == w % 256;
      assert LittleEndian(v, width)[1..] == LittleEndian(v / 256, width - 1);
      assert LittleEndian(w, width)[1..] == LittleEndian(w / 256, width - 1);
      LittleEndianInjective(v / 256, w / 256, width - 1);
    }
  }

  /** id || version as 8 little-endian bytes || content: what is hashed. */
  function Preimage(id: Bytes, version: nat, content: Bytes): Bytes {
    id + LittleEndian(version % U64, 8) + content
  }

  function ComputeHash(hash: Hasher, id: Bytes, version: nat, content: Bytes): Bytes {
    hash(Preimage(id, version, content))
  }

  predicate VerifyIntegrity(hash: Hasher, r: Record) {
    r.hash == ComputeHash(hash, r.entityId, r.version, r.content)
  }

  /** What the hash of a record is computed from. */
  function PreimageOf(r: Record): Bytes {
    Preimage(r.entityId, r.version, r.content)
  }

  /** These two inputs are no collision of the hash. */
  predicate Separates(hash: Hasher, x: Bytes, y: Bytes) {
    hash(x) == hash(y) ==> x == y
  }

  /** There is no collision among these records. */
  predicate SeparatesRecords(hash: Hasher, records: seq<Record>) {
    forall i, j :: 0 <= i < |records| && 0 <= j < |records| ==>
      Separates(hash, PreimageOf(records[i]), PreimageOf(records[j]))
  }

  /** No other input has the hash of x. */
  ghost predicate NoSecondPreimage(hash: Hasher, x: Bytes) {
    forall y: Bytes :: Separates(hash, x, y)
  }

  /** One id continues the other. */
  predicate Related(id: Bytes, id': Bytes) {
    id < id' || id' < id
  }

  /** Unless one id continues the other, the preimage determines id, version and content. */
  lemma PreimageInjective(id: Bytes, v: nat, c: Bytes, id': Bytes, v': nat, c': Bytes)
    requires !Related(id, id') && v < U64 && v' < U64 && Preimage(id, v, c) == Preimage(id', v', c')
    ensures id == id' && v == v' && c == c'
  {
    hide LittleEndian, Power256;
    var p, p' := Preimage(id, v, c), Preimage(id', v', c');
    assert id == id' by {
      assert p[..|id|] == id && p'[..|id'|] == id';
      assert |id| <= |id'| ==> id <= id' by { if |id| <= |id'| { assert id'[..|id|] == p'[..|id|] == id; } }
      assert |id'| <= |id| ==> id' <= id by { if |id'| <= |id| { assert id[..|id'|] == p[..|id'|] == id'; } }
    }
    assert v % U64 == v && v' % U64 == v';
    var n := |id|;
    assert p[n..n + 8] == LittleEndian(v % U64, 8) && p'[n..n + 8] == LittleEndian(v' % U64, 8);
    assert p[n + 8..] == c && p'[n + 8..] == c';
    Power256Of8();
    LittleEndianInjective(v, v', 8);
  }

  lemma Power256Of8()
    ensures Power256(8) == U64
  {
    assert Power256(4) == 256 * 256 * 256 * 256;
    assert Power256(8) == 256 * (256 * (256 * (256 * Power256(4))));
  }

  /** The number whose little-endian bytes are b. */
  function FromLittleEndian(b: Bytes): (v: nat)
    ensures v < Power256(|b|)
  {
    if b == [] then 0 else b[0] as nat + 256 * FromLittleEndian(b[1..])
  }

  lemma {:induction false} LittleEndianOf(b: Bytes)
    ensures LittleEndian(FromLittleEndian(b), |b|) == b
  {
    if b == [] {
    } else {
      var rest := FromLittleEndian(b[1..]);
      LittleEndianOf(b[1..]);
      assert (b[0] as nat + 256 * rest) % 256 == b[0] && (b[0] as nat + 256 * rest) / 256 == rest;
    }
  }

  /** The bytes that version v' and content c' of id' put after a shorter id: 8 of them read as a
      version, the others as content. */
  function Continuation(id: Bytes, id': Bytes, v': nat, c': Bytes): (r: Bytes)
    requires id < id'
    ensures |r| > 8
  {
    id'[|id|..] + LittleEndian(v' % U64, 8) + c'
  }

  function ClashVersion(id: Bytes, id': Bytes, v': nat, c': Bytes): (v: nat)
    requires id < id'
    ensures v < U64
  {
    Power256Of8();
    FromLittleEndian(Continuation(id, id', v', c')[..8])
  }

  function ClashContent(id: Bytes, id': Bytes, v': nat, c': Bytes): Bytes
    requires id < id'
  {
    Continuation(id, id', v', c')[8..]
  }

  /** When one id continues another, every version and content of the longer has the preimage, hence the
      hash under every hash function, of exactly one version and content of the shorter. */
  lemma PreimageAmbiguous(id: Bytes, id': Bytes, v: nat, c: Bytes, v': nat, c': Bytes)
    requires id < id' && v < U64 && v' < U64
    ensures Preimage(id, v, c) == Preimage(id', v', c')
            <==> v == ClashVersion(id, id', v', c') && c == ClashContent(id, id', v', c')
  {
    hide LittleEndian, Power256, FromLittleEndian;
    var rest, w := Continuation(id, id', v', c'), ClashVersion(id, id', v', c');
    assert id' == id + id'[|id|..];
    assert Preimage(id', v', c') == id + rest;
    LittleEndianOf(rest[..8]);
    assert rest == LittleEndian(w, 8) + rest[8..] by { assert rest == rest[..8] + rest[8..]; }
    assert Preimage(id, w, rest[8..]) == id + rest;
    if Preimage(id, v, c) == Preimage(id', v', c') {
      PreimageInjective(id, v, c, id, w, rest[8..]);
    }
  }

  /** So two different ids share a preimage exactly when one continues the other. */
  lemma PreimagesClashIffRelated(id: Bytes, id': Bytes)
    requires id != id'
    ensures (exists v: nat, c: Bytes, v': nat, c': Bytes ::
               v < U64 && v' < U64 && Preimage(id, v, c) == Preimage(id', v', c'))
            <==> Related(id, id')
  {
    hide Preimage;
    if v: nat, c: Bytes, v': nat, c': Bytes :|
       v < U64 && v' < U64 && Preimage(id, v, c) == Preimage(id', v', c')
    {
      if !Related(id, id') {
        PreimageInjective(id, v, c, id', v', c');
        assert false;
      }
    }
    if id < id' {
      var v, c := ClashVersion(id, id', 1, []), ClashContent(id, id', 1, []);
      PreimageAmbiguous(id, id', v, c, 1, []);
    } else if id' < id {
      var v, c := ClashVersion(id', id, 1, []), ClashContent(id', id, 1, []);
      PreimageAmbiguous(id', id, v, c, 1, []);
      assert Preimage(id, 1, []) == Preimage(id', v, c);
    }
  }

  /** A printable case: the 354th version of "a" with a zero byte before its content has the preimage of
      the first version of "ab". */
  lemma PrintableClash(c: Bytes)
    ensures Preimage([97], 354, [0] + c) == Preimage([97, 98], 1, c)
  {
    assert LittleEndian(0, 4) == [0, 0, 0, 0];
    assert LittleEndian(0, 6) == [0, 0, 0, 0, 0, 0] && LittleEndian(0, 7) == [0, 0, 0, 0, 0, 0, 0];
    assert LittleEndian(1, 8) == [1] + LittleEndian(0, 7);
    assert LittleEndian(1, 7) == [1] + LittleEndian(0, 6);
    assert LittleEndian(354, 8) == [98] + LittleEndian(1, 7);
  }

  // -------------------------------------------------------------- chains

  type Index = map<Bytes, seq<Record>>

  function ChainOf(index: Index, id: Bytes): seq<Record> {
    if id in index then index[id] else []
  }

  function ParentOf(chain: seq<Record>): Option<Bytes> {
    if chain == [] then None else Some(chain[|chain| - 1].hash)
  }

  /** What verification checks, written out. */
  lemma LinksVerifyMeaning(hash: Hasher, chain: seq<Record>)
    ensures LinksVerify(hash, chain) <==>
      && (forall i :: 0 <= i < |chain| ==>
            var r := chain[i];
            r.hash == hash(r.entityId + LittleEndian(r.version % 0x1_0000_0000_0000_0000, 8) + r.content))
      && (chain != [] ==> chain[0].parent == None)
      && forall i :: 0 < i < |chain| ==> chain[i].parent == Some(chain[i - 1].hash)
  {
    hide LittleEndian;
    assert forall i :: 0 < i < |chain| ==> ParentOf(chain[..i]) == Some(chain[i - 1].hash);
  }

  /** A version with another content does not verify, and with another hash of its own the next version does
      not, unless the hash collides. */
  lemma TamperDetected(hash: Hasher, chain: seq<Record>, i: nat, forged: Record)
    requires LinksVerify(hash, chain) && i < |chain|
    requires forged.entityId == chain[i].entityId && forged.version == chain[i].version
    requires forged.content != chain[i].content
    requires Separates(hash, PreimageOf(chain[i]), PreimageOf(forged))
    ensures forged.hash == chain[i].hash || i + 1 < |chain| ==> !LinksVerify(hash, chain[i := forged])
  {
    hide LittleEndian;
    var after := chain[i := forged];
    var x, y := PreimageOf(chain[i]), PreimageOf(forged);
    var n := |chain[i].entityId| + |LittleEndian(forged.version % U64, 8)|;
    assert x[n..] == chain[i].content && y[n..] == forged.content;
    LinksVerifyMeaning(hash, chain);
    LinksVerifyMeaning(hash, after);
    assert VerifyIntegrity(hash, chain[i]);
    assert VerifyIntegrity(hash, after[i]) <==> forged.hash == hash(y);
    assert i + 1 < |chain| ==> after[i + 1] == chain[i + 1];
  }

  /** Record i is version i + 1 of id. */
  predicate Numbered(id: Bytes, chain: seq<Record>) {
    forall i :: 0 <= i < |chain| ==> chain[i].version == i + 1 && chain[i].entityId == id
  }

  /** What verify_chain looks at: integrity and parent links, but not ids or version numbers. */
  predicate LinksVerify(hash: Hasher, chain: seq<Record>) {
    forall i :: 0 <= i < |chain| ==> VerifyIntegrity(hash, chain[i]) && chain[i].parent == ParentOf(chain[..i])
  }

  /** The chain invariant: numbered from 1, each record carrying its own hash and pointing to the one before. */
  predicate ChainOk(hash: Hasher, id: Bytes, chain: seq<Record>) {
    Numbered(id, chain) && LinksVerify(hash, chain)
  }

  datatype Draft = Draft(
    id: Bytes, entityType: EntityType, content: Bytes, nonce: Bytes, author: VersionAuthor,
    changeSummary: Option<string>, tags: seq<string>, now: int)

  /** The record that append builds on top of a chain. */
  function NextRecord(hash: Hasher, chain: seq<Record>, d: Draft): Record {
    var version := |chain| + 1;
    Record(ComputeHash(hash, d.id, version, d.content), d.id, d.entityType, version, d.author, d.now,
           d.content, d.nonce, Metadata(d.changeSummary, 0, d.tags), ParentOf(chain))
  }

  /** The draft that a record says it was made from. */
  function DraftOf(r: Record): Draft {
    Draft(r.entityId, r.entityType, r.content, r.nonce, r.author, r.metadata.changeSummary, r.metadata.tags,
          r.createdAt)
  }

  /** The record is made from the draft, and stamped with the time of the append. */
  lemma NextRecordCarries(hash: Hasher, chain: seq<Record>, d: Draft)
    ensures DraftOf(NextRecord(hash, chain, d)) == d
    ensures NextRecord(hash, chain, d).metadata.contentSizeBytes == 0
  {
  }

  lemma AppendKeepsChain(hash: Hasher, chain: seq<Record>, d: Draft)
    requires ChainOk(hash, d.id, chain)
    ensures ChainOk(hash, d.id, chain + [NextRecord(hash, chain, d)])
  {
    var longer := chain + [NextRecord(hash, chain, d)];
    forall i | 0 <= i < |longer|
      ensures VerifyIntegrity(hash, longer[i]) && longer[i].parent == ParentOf(longer[..i])
    {
      assert longer[..i] == chain[..i];
      if i == |chain| { assert chain[..i] == chain; }
    }
  }

  /** Two versions of one entity never share a hash, unless they are a collision of the hash function. */
  lemma VersionsHaveDistinctHashes(hash: Hasher, id: Bytes, chain: seq<Record>, i: nat, j: nat)
    requires ChainOk(hash, id, chain) && |chain| < U64 && i < |chain| && j < |chain|
    requires Separates(hash, PreimageOf(chain[i]), PreimageOf(chain[j]))
    ensures chain[i].hash == chain[j].hash <==> i == j
  {
    if chain[i].hash == chain[j].hash {
      PreimageInjective(id, i + 1, chain[i].content, id, j + 1, chain[j].content);
    }
  }

  /** The tip hash does not commit to the history: the first version's content can be replaced, its
      hash and the link of the second recomputed, and the chain still verifies with the same tip hash. */
  lemma TipDoesNotCommit(hash: Hasher, id: Bytes, chain: seq<Record>, forged: Bytes)
    requires ChainOk(hash, id, chain) && |chain| >= 2
    ensures var first := chain[0].(content := forged, hash := ComputeHash(hash, id, 1, forged));
            var second := chain[1].(parent := Some(first.hash));
            var rewritten := [first, second] + chain[2..];
            && ChainOk(hash, id, rewritten) && LinksVerify(hash, rewritten)
            && rewritten[|rewritten| - 1].hash == chain[|chain| - 1].hash
  {
    var first := chain[0].(content := forged, hash := ComputeHash(hash, id, 1, forged));
    var second := chain[1].(parent := Some(first.hash));
    var rewritten := [first, second] + chain[2..];
    forall i | 0 <= i < |rewritten|
      ensures VerifyIntegrity(hash, rewritten[i]) && rewritten[i].parent == ParentOf(rewritten[..i])
    {
      assert chain[i].parent == ParentOf(chain[..i]);
      if i >= 2 {
        assert rewritten[i] == chain[i] && rewritten[..i][i - 1] == rewritten[i - 1];
        assert rewritten[i - 1].hash == chain[i - 1].hash == chain[..i][i - 1].hash;
      }
    }
  }

  /** What a tip hash does fix, unless the two tips are a collision: the length of the chain and the content
      of its last version. */
  lemma TipFixesLastVersion(hash: Hasher, id: Bytes, chain: seq<Record>, other: seq<Record>)
    requires ChainOk(hash, id, chain) && ChainOk(hash, id, other)
    requires 0 < |chain| < U64 && 0 < |other| < U64 && chain[|chain| - 1].hash == other[|other| - 1].hash
    requires Separates(hash, PreimageOf(chain[|chain| - 1]), PreimageOf(other[|other| - 1]))
    ensures |chain| == |other| && chain[|chain| - 1].content == other[|other| - 1].content
  {
    hide Preimage;
    var last, otherLast := chain[|chain| - 1], other[|other| - 1];
    PreimageInjective(id, last.version, last.content, id, otherLast.version, otherLast.content);
  }

  function Contents(chain: seq<Record>): (r: seq<Bytes>)
    ensures |r| == |chain|
  {
    seq(|chain|, i requires 0 <= i < |chain| => chain[i].content)
  }

  /** Every chain of fewer than 2^64 versions with this tip hash has these contents. */
  ghost predicate TipFixesContents(hash: Hasher, id: Bytes, chain: seq<Record>)
    requires chain != []
  {
    forall other: seq<Record> ::
      ChainOk(hash, id, other) && 0 < |other| < U64 && other[|other| - 1].hash == chain[|chain| - 1].hash ==>
        Contents(other) == Contents(chain)
  }

  /** So a tip hash without a second preimage commits to the contents of a chain exactly when the chain
      has a single version. */
  lemma TipCommitsIffSingle(hash: Hasher, id: Bytes, chain: seq<Record>)
    requires ChainOk(hash, id, chain) && 0 < |chain| < U64 && NoSecondPreimage(hash, PreimageOf(chain[|chain| - 1]))
    ensures TipFixesContents(hash, id, chain) <==> |chain| == 1
  {
    hide ChainOk;
    if |chain| == 1 {
      forall other: seq<Record> |
          ChainOk(hash, id, other) && 0 < |other| < U64 && other[|other| - 1].hash == chain[|chain| - 1].hash
        ensures Contents(other) == Contents(chain)
      {
        TipFixesLastVersion(hash, id, chain, other);
      }
    } else {
      var forged := chain[0].content + [0];
      TipDoesNotCommit(hash, id, chain, forged);
      var first := chain[0].(content := forged, hash := ComputeHash(hash, id, 1, forged));
      var rewritten := [first, chain[1].(parent := Some(first.hash))] + chain[2..];
      assert Contents(rewritten)[0] != Contents(chain)[0];
    }
  }

  // ------------------------------------------------------- what is verified

  /** The same ids, versions and contents with hashes and parent links recomputed. */
  function Relinked(hash: Hasher, chain: seq<Record>): (r: seq<Record>)
    ensures |r| == |chain|
  {
    if chain == [] then []
    else
      var k := |chain| - 1;
      var front := Relinked(hash, chain[..k]);
      front + [chain[k].(
        hash := ComputeHash(hash, chain[k].entityId, chain[k].version, chain[k].content), parent := ParentOf(front))]
  }

  /** verify_chain ignores ids and version numbers: whatever they are, some hashes and links make the
      chain verify, and then it is a chain that append builds exactly when it is numbered 1, 2, 3, ... */
  lemma {:induction false} VerifyIgnoresNumbering(hash: Hasher, id: Bytes, chain: seq<Record>)
    ensures LinksVerify(hash, Relinked(hash, chain))
    ensures ChainOk(hash, id, Relinked(hash, chain)) <==> Numbered(id, chain)
  {
    RelinkedVerifies(hash, chain);
    RelinkedKeeps(hash, chain);
    hide LinksVerify, Relinked;
    var r := Relinked(hash, chain);
    assert forall i :: 0 <= i < |chain| ==> r[i].version == chain[i].version && r[i].entityId == chain[i].entityId;
  }

  lemma {:induction false} RelinkedKeeps(hash: Hasher, chain: seq<Record>)
    ensures forall i :: 0 <= i < |chain| ==>
      var r := Relinked(hash, chain)[i];
      r.version == chain[i].version && r.entityId == chain[i].entityId && r.content == chain[i].content
  {
    if chain == [] {
    } else {
      RelinkedKeeps(hash, chain[..|chain| - 1]);
      assert forall i :: 0 <= i < |chain| - 1 ==> chain[..|chain| - 1][i] == chain[i];
    }
  }

  lemma {:induction false} RelinkedVerifies(hash: Hasher, chain: seq<Record>)
    ensures LinksVerify(hash, Relinked(hash, chain))
  {
    if chain == [] {
    } else {
      var k := |chain| - 1;
      var front, r := Relinked(hash, chain[..k]), Relinked(hash, chain);
      RelinkedVerifies(hash, chain[..k]);
      forall i | 0 <= i < |r| ensures VerifyIntegrity(hash, r[i]) && r[i].parent == ParentOf(r[..i]) {
        if i < k {
          assert r[i] == front[i] && r[..i] == front[..i];
        } else {
          assert r[..k] == front;
        }
      }
    }
  }
}
