/**
 The extended-attribute record format: one node's attributes are one blob, a run of records each
 holding a name length, a little-endian kind and value length, the name and the value.
 `Records` is the reader, `Encode` the writer, and `Put`/`Without` say on the list of attributes
 what setting and removing mean.
 */
module AttrCodec {
  import opened Basics

  const MAX_NAME: nat := 255
  const MAX_VALUE: nat := 3072
  const MAX_COUNT: nat := 16
  const MAX_KIND: nat := 0x7fff_ffff
  const RECORD_HEADER: nat := 7
  const MAX_BYTES: nat := MAX_COUNT * RecordLen(MAX_NAME, MAX_VALUE)

  datatype Attr = Attr(name: Bytes, kind: nat, value: Bytes)

  function RecordLen(nameLen: nat, valueLen: nat): nat {
    RECORD_HEADER + nameLen + valueLen
  }

  predicate ValidName(name: Bytes) {
    0 < |name| <= MAX_NAME && 0 !in name
  }

  /** An attribute the store accepts. */
  predicate Storable(a: Attr) {
    ValidName(a.name) && a.kind <= MAX_KIND && |a.value| <= MAX_VALUE
  }

  /** An attribute the record format can carry. */
  predicate Writable(a: Attr) {
    0 < |a.name| <= MAX_NAME && a.kind < 0x1_0000_0000 && |a.value| <= MAX_VALUE
  }

  predicate AllWritable(rs: seq<Attr>) {
    forall i :: 0 <= i < |rs| ==> Writable(rs[i])
  }

  ghost predicate DistinctNames(rs: seq<Attr>) {
    forall i, j :: 0 <= i < j < |rs| ==> rs[i].name != rs[j].name
  }

  ghost predicate GoodList(rs: seq<Attr>) {
    |rs| <= MAX_COUNT && DistinctNames(rs) && forall i :: 0 <= i < |rs| ==> Storable(rs[i])
  }

  function Le4(k: nat): (r: Bytes)
    requires k < 0x1_0000_0000
    ensures |r| == 4
  {
    [k % 256, k / 256 % 256, k / 65536 % 256, k / 16777216]
  }

  function FromLe4(b: Bytes): nat
    requires |b| == 4
  {
    b[0] as int + 256 * (b[1] as int) + 65536 * (b[2] as int) + 16777216 * (b[3] as int)
  }

  function Le2(k: nat): (r: Bytes)
    requires k < 65536
    ensures |r| == 2
  {
    [k % 256, k / 256]
  }

  function FromLe2(b: Bytes): nat
    requires |b| == 2
  {
    b[0] as int + 256 * (b[1] as int)
  }

  /** The length the record at the front of `blob` claims. */
  function Claimed(blob: Bytes): nat
    requires |blob| >= RECORD_HEADER
  {
    RecordLen(blob[0], FromLe2(blob[5..7]))
  }

  /** A whole record stands at the front: a zero name length or a record running off the end ends the walk. */
  predicate HasRecord(blob: Bytes) {
    |blob| >= RECORD_HEADER && blob[0] != 0 && Claimed(blob) <= |blob|
  }

  function FrontRecord(blob: Bytes): Attr
    requires HasRecord(blob)
  {
    Attr(blob[7..7 + blob[0]], FromLe4(blob[1..5]), blob[7 + blob[0]..Claimed(blob)])
  }

  /** Every attribute a reader of `blob` sees. */
  function Records(blob: Bytes): seq<Attr>
    decreases |blob|
  {
    if HasRecord(blob) then [FrontRecord(blob)] + Records(blob[Claimed(blob)..]) else []
  }

  function EncodeRecord(a: Attr): (r: Bytes)
    requires Writable(a)
    ensures |r| == RecordLen(|a.name|, |a.value|)
  {
    [|a.name|] + Le4(a.kind) + Le2(|a.value|) + a.name + a.value
  }

  /** The record as bytes: the name's length, the kind and the value's length low byte first, the name, the value. */
  lemma {:induction false} RecordLayout(a: Attr)
    requires Writable(a)
    ensures var r := EncodeRecord(a);
            && |r| == 7 + |a.name| + |a.value| && r[0] == |a.name|
            && a.kind == r[1] as int + 0x100 * (r[2] as int) + 0x1_0000 * (r[3] as int) + 0x100_0000 * (r[4] as int)
            && |a.value| == r[5] as int + 0x100 * (r[6] as int)
            && r[7..7 + |a.name|] == a.name && r[7 + |a.name|..] == a.value
  {
    var r, k, v := EncodeRecord(a), Le4(a.kind), Le2(|a.value|);
    assert r[1] == k[0] && r[2] == k[1] && r[3] == k[2] && r[4] == k[3];
    assert r[5] == v[0] && r[6] == v[1];
    BytesOf(a.kind);
  }

  lemma {:induction false} BytesOf(k: nat)
    ensures k == k % 256 + 256 * (k / 256 % 256) + 65536 * (k / 65536 % 256) + 16777216 * (k / 16777216)
  {
    assert k / 65536 == k / 256 / 256 && k / 16777216 == k / 65536 / 256;
  }

  function Encode(rs: seq<Attr>): Bytes
    requires AllWritable(rs)
  {
    if rs == [] then [] else EncodeRecord(rs[0]) + Encode(rs[1..])
  }

  function Lookup(rs: seq<Attr>, name: Bytes): Option<Attr> {
    if rs == [] then None else if rs[0].name == name then Some(rs[0]) else Lookup(rs[1..], name)
  }

  function NamesOf(rs: seq<Attr>): seq<Bytes> {
    seq(|rs|, i requires 0 <= i < |rs| => rs[i].name)
  }

  /** `rs` with every attribute called `a.name` replaced by `a`, in place. */
  function Replaced(rs: seq<Attr>, a: Attr): seq<Attr> {
    seq(|rs|, i requires 0 <= i < |rs| => if rs[i].name == a.name then a else rs[i])
  }

  /** Setting an attribute: replace it where it stands, or append it. */
  function Put(rs: seq<Attr>, a: Attr): seq<Attr> {
    if Lookup(rs, a.name).Some? then Replaced(rs, a) else rs + [a]
  }

  function Without(rs: seq<Attr>, name: Bytes): seq<Attr> {
    if rs == [] then []
    else if rs[0].name == name then Without(rs[1..], name)
    else [rs[0]] + Without(rs[1..], name)
  }

  // --- the round trip ---

  lemma {:induction false} Le4RoundTrip(k: nat)
    requires k < 0x1_0000_0000
    ensures FromLe4(Le4(k)) == k
  {
    assert k / 65536 == k / 256 / 256;
    assert k / 16777216 == k / 65536 / 256;
  }

  lemma {:induction false} FrontOfEncoded(a: Attr, tail: Bytes)
    requires Writable(a)
    ensures HasRecord(EncodeRecord(a) + tail)
    ensures Claimed(EncodeRecord(a) + tail) == |EncodeRecord(a)|
    ensures FrontRecord(EncodeRecord(a) + tail) == a
  {
    var e := EncodeRecord(a);
    var b := e + tail;
    assert b[0] == |a.name|;
    assert b[1..5] == Le4(a.kind);
    assert b[5..7] == Le2(|a.value|);
    Le4RoundTrip(a.kind);
    assert b[7..7 + |a.name|] == a.name;
    assert b[7 + |a.name|..|e|] == a.value;
  }

  lemma {:induction false} RecordsOfFront(a: Attr, tail: Bytes)
    requires Writable(a)
    ensures Records(EncodeRecord(a) + tail) == [a] + Records(tail)
  {
    FrontOfEncoded(a, tail);
    assert (EncodeRecord(a) + tail)[|EncodeRecord(a)|..] == tail;
  }

  /** Whatever stands behind a run of records, as long as no record stands there, is not read as one. */
  lemma {:induction false} RecordsOfEncoded(rs: seq<Attr>, tail: Bytes)
    requires AllWritable(rs)
    requires !HasRecord(tail)
    ensures Records(Encode(rs) + tail) == rs
  {
    if rs == [] {
      assert Encode(rs) + tail == tail;
    } else {
      var rest := Encode(rs[1..]) + tail;
      assert Encode(rs) + tail == EncodeRecord(rs[0]) + rest;
      RecordsOfFront(rs[0], rest);
      RecordsOfEncoded(rs[1..], tail);
    }
  }

  /** Decoding an encoded list gives the list back. */
  lemma {:induction false} RoundTrip(rs: seq<Attr>)
    requires AllWritable(rs)
    ensures Records(Encode(rs)) == rs
  {
    RecordsOfEncoded(rs, []);
    assert Encode(rs) + [] == Encode(rs);
  }

  /** A cut inside a record leaves no record. */
  lemma {:induction false} CutRecord(a: Attr, k: nat)
    requires Writable(a)
    requires k < |EncodeRecord(a)|
    ensures !HasRecord(EncodeRecord(a)[..k])
  {
    var cut := EncodeRecord(a)[..k];
    if |cut| >= RECORD_HEADER {
      FrontOfEncoded(a, []);
      assert EncodeRecord(a) + [] == EncodeRecord(a);
      assert cut[5..7] == EncodeRecord(a)[5..7];
    }
  }

  lemma {:induction false} TakeOfConcat(front: Bytes, back: Bytes, k: nat)
    requires k <= |front| + |back|
    ensures (front + back)[..k] == if k < |front| then front[..k] else front + back[..k - |front|]
  {
  }

  lemma {:induction false} PrefixOfCons(rs: seq<Attr>, n: nat)
    requires n < |rs|
    ensures [rs[0]] + rs[1..][..n] == rs[..n + 1]
  {
  }

  /** How many whole records the first `k` bytes of an encoding hold. */
  function WholeRecords(rs: seq<Attr>, k: nat): (n: nat)
    requires AllWritable(rs)
    ensures n <= |rs|
  {
    if rs == [] || k < |EncodeRecord(rs[0])| then 0 else 1 + WholeRecords(rs[1..], k - |EncodeRecord(rs[0])|)
  }

  lemma {:induction false} TornRecord(a: Attr, tail: Bytes, k: nat)
    requires Writable(a) && k <= |EncodeRecord(a)| + |tail|
    ensures Records((EncodeRecord(a) + tail)[..k]) ==
            if k < |EncodeRecord(a)| then [] else [a] + Records(tail[..k - |EncodeRecord(a)|])
  {
    TakeOfConcat(EncodeRecord(a), tail, k);
    if k < |EncodeRecord(a)| {
      CutRecord(a, k);
    } else {
      RecordsOfFront(a, tail[..k - |EncodeRecord(a)|]);
    }
  }

  /** A torn blob yields fewer attributes, never a wrong one: any prefix of an encoding reads as a prefix of the list. */
  lemma {:induction false} TornBlob(rs: seq<Attr>, k: nat)
    requires AllWritable(rs)
    requires k <= |Encode(rs)|
    ensures Records(Encode(rs)[..k]) == rs[..WholeRecords(rs, k)]
  {
    if rs != [] {
      var len := |EncodeRecord(rs[0])|;
      TornRecord(rs[0], Encode(rs[1..]), k);
      if k >= len {
        TornBlob(rs[1..], k - len);
        PrefixOfCons(rs, WholeRecords(rs[1..], k - len));
      }
    }
  }

  /** A good list's encoding stays inside the store's ceiling. */
  lemma {:induction false} EncodedLength(rs: seq<Attr>)
    requires AllWritable(rs)
    ensures |Encode(rs)| <= |rs| * RecordLen(MAX_NAME, MAX_VALUE)
    ensures rs != [] ==> Encode(rs) != []
  {
    if rs != [] {
      EncodedLength(rs[1..]);
    }
  }

  // --- what set and remove mean ---

  lemma {:induction false} LookupIndex(rs: seq<Attr>, name: Bytes) returns (k: nat)
    ensures Lookup(rs, name).Some? ==> k < |rs| && rs[k].name == name && Lookup(rs, name) == Some(rs[k])
    ensures Lookup(rs, name).None? ==> forall i :: 0 <= i < |rs| ==> rs[i].name != name
  {
    if rs == [] || rs[0].name == name {
      k := 0;
    } else {
      var j := LookupIndex(rs[1..], name);
      k := j + 1;
      forall i | 0 <= i < |rs| && Lookup(rs, name).None?
        ensures rs[i].name != name
      {
        assert i == 0 || rs[i] == rs[1..][i - 1];
      }
    }
  }

  lemma {:induction false} LookupAppended(rs: seq<Attr>, a: Attr, name: Bytes)
    ensures Lookup(rs + [a], name) ==
            if Lookup(rs, name).Some? then Lookup(rs, name) else if a.name == name then Some(a) else None
  {
    if rs != [] {
      assert (rs + [a])[1..] == rs[1..] + [a];
      LookupAppended(rs[1..], a, name);
    }
  }

  lemma {:induction false} LookupReplaced(rs: seq<Attr>, a: Attr, name: Bytes)
    ensures Lookup(Replaced(rs, a), name) ==
            if name == a.name && Lookup(rs, name).Some? then Some(a) else Lookup(rs, name)
  {
    if rs != [] {
      assert Replaced(rs, a)[1..] == Replaced(rs[1..], a);
      LookupReplaced(rs[1..], a, name);
    }
  }

  /** Set is a map update: the named attribute becomes `a`, every other one is untouched. */
  lemma {:induction false} PutIsUpdate(rs: seq<Attr>, a: Attr, name: Bytes)
    ensures Lookup(Put(rs, a), name) == if name == a.name then Some(a) else Lookup(rs, name)
  {
    LookupReplaced(rs, a, name);
    LookupAppended(rs, a, name);
  }

  /** Replacing keeps the order a listing shows; a new attribute goes last. */
  lemma {:induction false} PutKeepsOrder(rs: seq<Attr>, a: Attr)
    ensures NamesOf(Put(rs, a)) ==
            if Lookup(rs, a.name).Some? then NamesOf(rs) else NamesOf(rs) + [a.name]
  {
    var k := LookupIndex(rs, a.name);
    if Lookup(rs, a.name).Some? {
      assert NamesOf(Replaced(rs, a)) == NamesOf(rs);
    } else {
      assert NamesOf(rs + [a]) == NamesOf(rs) + [a.name];
    }
  }

  lemma {:induction false} PutKeepsGood(rs: seq<Attr>, a: Attr)
    requires GoodList(rs) && Storable(a)
    requires Lookup(rs, a.name).Some? || |rs| < MAX_COUNT
    ensures GoodList(Put(rs, a)) && Put(rs, a) != []
  {
    var k := LookupIndex(rs, a.name);
  }

  /** Remove is a map deletion. */
  lemma {:induction false} WithoutIsDeletion(rs: seq<Attr>, gone: Bytes, name: Bytes)
    ensures Lookup(Without(rs, gone), name) == if name == gone then None else Lookup(rs, name)
  {
    if rs != [] {
      WithoutIsDeletion(rs[1..], gone, name);
      if rs[0].name != gone {
        assert Without(rs, gone)[1..] == Without(rs[1..], gone);
      }
    }
  }

  /** Where the survivors of a removal stood. */
  function Survivors(rs: seq<Attr>, gone: Bytes): (idx: seq<nat>)
    ensures forall i :: 0 <= i < |idx| ==> idx[i] < |rs|
  {
    if rs == [] then []
    else
      var last := |rs| - 1;
      Survivors(rs[..last], gone) + if rs[last].name == gone then [] else [last]
  }

  /** Remove keeps the survivors in order: what is left is the old list read at increasing positions. */
  lemma {:induction false} WithoutSelects(rs: seq<Attr>, gone: Bytes)
    ensures |Survivors(rs, gone)| == |Without(rs, gone)| <= |rs|
    ensures forall i :: 0 <= i < |Without(rs, gone)| ==> Without(rs, gone)[i] == rs[Survivors(rs, gone)[i]]
    ensures forall i, j :: 0 <= i < j < |Survivors(rs, gone)| ==> Survivors(rs, gone)[i] < Survivors(rs, gone)[j]
  {
    if rs != [] {
      var last := |rs| - 1;
      WithoutSelects(rs[..last], gone);
      WithoutAppended(rs[..last], rs[last], gone);
      assert rs == rs[..last] + [rs[last]];
    }
  }

  lemma {:induction false} WithoutKeepsGood(rs: seq<Attr>, gone: Bytes)
    requires GoodList(rs)
    ensures GoodList(Without(rs, gone))
  {
    WithoutSelects(rs, gone);
    var w, idx := Without(rs, gone), Survivors(rs, gone);
    forall i, j | 0 <= i < j < |w|
      ensures w[i].name != w[j].name
    {
      assert w[i] == rs[idx[i]] && w[j] == rs[idx[j]];
    }
  }

  // --- the store's two rewriting operations ---

  /** What setting `a` on a node whose blob is `blob` answers. */
  function SetBlob(blob: Bytes, a: Attr): Result<Bytes> {
    var rs := Records(blob);
    if !ValidName(a.name) then Err(ERANGE)
    else if |a.value| > MAX_VALUE then Err(E2BIG)
    else if a.kind > MAX_KIND then Err(EINVAL)
    else if !AllWritable(Put(rs, a)) then Err(ENOSPC)
    else if Lookup(rs, a.name).None? && |rs| >= MAX_COUNT then Err(ENOSPC)
    else Ok(Encode(Put(rs, a)))
  }

  /** What removing `name` from a node whose blob is `blob` answers. */
  function RemoveBlob(blob: Bytes, name: Bytes): Result<Bytes> {
    var rs := Records(blob);
    if !ValidName(name) then Err(ERANGE)
    else if !AllWritable(Without(rs, name)) then Err(ENOSPC)
    else if Lookup(rs, name).None? then Err(ENODATA)
    else Ok(Encode(Without(rs, name)))
  }

  lemma {:induction false} EncodeAppended(rs: seq<Attr>, a: Attr)
    requires AllWritable(rs) && Writable(a)
    ensures AllWritable(rs + [a])
    ensures Encode(rs + [a]) == Encode(rs) + EncodeRecord(a)
  {
    if rs == [] {
      assert [a][1..] == [];
    } else {
      EncodeAppended(rs[1..], a);
      assert (rs + [a])[1..] == rs[1..] + [a];
    }
  }

  lemma {:induction false} WithoutAppended(rs: seq<Attr>, a: Attr, name: Bytes)
    ensures Without(rs + [a], name) == if a.name == name then Without(rs, name) else Without(rs, name) + [a]
  {
    if rs == [] {
      assert Without([a][1..], name) == [];
    } else {
      WithoutAppended(rs[1..], a, name);
      assert (rs + [a])[1..] == rs[1..] + [a];
    }
  }

  /** One step of a walk over a blob's records: `done` are the records passed, `rest` the bytes ahead. */
  lemma {:induction false} WalkStep(all: seq<Attr>, done: seq<Attr>, rest: Bytes)
    requires HasRecord(rest) && all == done + Records(rest)
    ensures all == (done + [FrontRecord(rest)]) + Records(rest[Claimed(rest)..])
    ensures |done| < |all| && all[..|done|] == done && all[|done|] == FrontRecord(rest)
    ensures Claimed(rest) == RecordLen(|FrontRecord(rest).name|, |FrontRecord(rest).value|)
  {
  }

  /** What one rewritten record adds to the buffer. */
  lemma {:induction false} SetStep(done: seq<Attr>, front: Attr, a: Attr, written: Attr)
    requires AllWritable(Replaced(done, a)) && Writable(written)
    requires written == if front.name == a.name then a else front
    ensures AllWritable(Replaced(done + [front], a))
    ensures Encode(Replaced(done + [front], a)) == Encode(Replaced(done, a)) + EncodeRecord(written)
    ensures Lookup(done + [front], a.name).Some? <==> Lookup(done, a.name).Some? || front.name == a.name
  {
    assert Replaced(done + [front], a) == Replaced(done, a) + [written];
    EncodeAppended(Replaced(done, a), written);
    LookupAppended(done, front, a.name);
  }

  lemma {:induction false} UnwritablePut(all: seq<Attr>, i: nat, a: Attr)
    requires i < |all| && !Writable(if all[i].name == a.name then a else all[i])
    ensures !AllWritable(Put(all, a))
  {
    var k := LookupIndex(all, a.name);
    assert Put(all, a)[i] == if all[i].name == a.name then a else all[i];
  }

  lemma {:induction false} SetAppends(all: seq<Attr>, a: Attr)
    requires Lookup(all, a.name).None? && AllWritable(Replaced(all, a)) && Writable(a)
    ensures AllWritable(Put(all, a)) && Encode(Put(all, a)) == Encode(Replaced(all, a)) + EncodeRecord(a)
  {
    var k := LookupIndex(all, a.name);
    assert Replaced(all, a) == all;
    EncodeAppended(all, a);
  }

  lemma {:induction false} EncodePrefix(rs: seq<Attr>, n: nat)
    requires n <= |rs| && AllWritable(rs) && AllWritable(rs[..n])
    ensures |Encode(rs[..n])| <= |Encode(rs)|
  {
    if n > 0 {
      assert rs[..n][1..] == rs[1..][..n - 1];
      EncodePrefix(rs[1..], n - 1);
    }
  }

  /** What has been written by record `i` is no longer than the whole. */
  lemma {:induction false} SetGrows(all: seq<Attr>, i: nat, a: Attr, written: Attr)
    requires i < |all| && AllWritable(Put(all, a)) && AllWritable(Replaced(all[..i], a))
    requires written == (if all[i].name == a.name then a else all[i]) && Writable(written)
    ensures |Encode(Replaced(all[..i], a))| + RecordLen(|written.name|, |written.value|) <= |Encode(Put(all, a))|
  {
    var k := LookupIndex(all, a.name);
    EncodeAppended(Replaced(all[..i], a), written);
    assert Put(all, a)[..i + 1] == Replaced(all[..i], a) + [written];
    EncodePrefix(Put(all, a), i + 1);
  }

  lemma {:induction false} FirstOccurrence(all: seq<Attr>, i: nat)
    requires DistinctNames(all) && i < |all|
    ensures Lookup(all[..i], all[i].name).None?
  {
    var k := LookupIndex(all[..i], all[i].name);
  }

  /**
   Set `a`, producing the new blob in a buffer of `room` bytes: walk the records, rewrite each one
   (the named one with its new value), append when nothing was replaced. The new blob if it fits the buffer;
   with room for the old blob and one whole record it always does.
   */
  method StoreSet(blob: Bytes, a: Attr, room: nat) returns (r: Result<Bytes>)
    ensures r == (if SetBlob(blob, a).Ok? && |SetBlob(blob, a).value| > room then Err(ENOSPC) else SetBlob(blob, a))
    ensures room >= |blob| + RecordLen(|a.name|, |a.value|) && DistinctNames(Records(blob)) ==> r == SetBlob(blob, a)
  {
    if !ValidName(a.name) { return Err(ERANGE); }
    if |a.value| > MAX_VALUE { return Err(E2BIG); }
    if a.kind > MAX_KIND { return Err(EINVAL); }
    var len := RecordLen(|a.name|, |a.value|);
    var out: Bytes := [];
    var replaced := false;
    var rest := blob;
    ghost var done: seq<Attr> := [];
    ghost var all := Records(blob);
    ghost var whole := SetBlob(blob, a);
    assert whole.Err? ==> whole.errno == ENOSPC;
    while HasRecord(rest)
      invariant all == done + Records(rest)
      invariant AllWritable(Replaced(done, a)) && out == Encode(Replaced(done, a))
      invariant replaced <==> Lookup(done, a.name).Some?
      invariant |out| <= room
      invariant DistinctNames(all) ==> |out| + |rest| <= |blob| + if replaced then len else 0
      decreases |rest|
    {
      var front := FrontRecord(rest);
      var written := if front.name == a.name then a else front;
      WalkStep(all, done, rest);
      if DistinctNames(all) {
        FirstOccurrence(all, |done|);
      }
      if !Writable(written) || |out| + RecordLen(|written.name|, |written.value|) > room {
        if !Writable(written) {
          UnwritablePut(all, |done|, a);
        } else if AllWritable(Put(all, a)) {
          SetGrows(all, |done|, a, written);
        }
        assert whole.Ok? ==> |whole.value| > room;
        return Err(ENOSPC);
      }
      SetStep(done, front, a, written);
      out := out + EncodeRecord(written);
      replaced := replaced || front.name == a.name;
      done := done + [front];
      rest := rest[Claimed(rest)..];
    }
    assert done == all;
    if replaced {
      assert whole == Ok(out);
      return Ok(out);
    }
    SetAppends(all, a);
    if |Records(blob)| >= MAX_COUNT || |out| + len > room {
      return Err(ENOSPC);
    }
    return Ok(out + EncodeRecord(a));
  }

  /** What one surviving or skipped record does to the buffer. */
  lemma {:induction false} RemoveStep(done: seq<Attr>, front: Attr, name: Bytes)
    requires AllWritable(Without(done, name)) && (front.name == name || Writable(front))
    ensures AllWritable(Without(done + [front], name))
    ensures Encode(Without(done + [front], name)) ==
            Encode(Without(done, name)) + if front.name == name then [] else EncodeRecord(front)
    ensures Lookup(done + [front], name).Some? <==> Lookup(done, name).Some? || front.name == name
  {
    LookupAppended(done, front, name);
    WithoutAppended(done, front, name);
    if front.name != name {
      EncodeAppended(Without(done, name), front);
    }
  }

  lemma {:induction false} UnwritableRemains(before: seq<Attr>, a: Attr, after: seq<Attr>, name: Bytes)
    requires a.name != name && !Writable(a)
    ensures !AllWritable(Without(before + [a] + after, name))
  {
    var rs := before + [a] + after;
    if before == [] {
      assert Without(rs, name)[0] == a;
    } else {
      assert rs[1..] == before[1..] + [a] + after;
      UnwritableRemains(before[1..], a, after, name);
      var w := Without(rs[1..], name);
      var i :| 0 <= i < |w| && !Writable(w[i]);
      if rs[0].name != name {
        assert Without(rs, name)[i + 1] == w[i];
      }
    }
  }

  /** Remove `name`, producing the new blob in a buffer as long as the old one, which is always enough. */
  method StoreRemove(blob: Bytes, name: Bytes) returns (r: Result<Bytes>)
    ensures r == RemoveBlob(blob, name)
    ensures r.Ok? ==> |r.value| < |blob|
  {
    if !ValidName(name) { return Err(ERANGE); }
    var out: Bytes := [];
    var found := false;
    var rest := blob;
    ghost var done: seq<Attr> := [];
    ghost var all := Records(blob);
    while HasRecord(rest)
      invariant all == done + Records(rest)
      invariant AllWritable(Without(done, name)) && out == Encode(Without(done, name))
      invariant found <==> Lookup(done, name).Some?
      invariant |out| + |rest| + (if found then 1 else 0) <= |blob|
      decreases |rest|
    {
      var front := FrontRecord(rest);
      WalkStep(all, done, rest);
      if front.name != name && !Writable(front) {
        UnwritableRemains(done, front, Records(rest[Claimed(rest)..]), name);
        return Err(ENOSPC);
      }
      RemoveStep(done, front, name);
      if front.name == name {
        found := true;
      } else {
        out := out + EncodeRecord(front);
      }
      done := done + [front];
      rest := rest[Claimed(rest)..];
    }
    assert done == all;
    return if found then Ok(out) else Err(ENODATA);
  }
}
