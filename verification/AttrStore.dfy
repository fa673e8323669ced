/**
 The attribute layer: one blob file per node, named by the node's id in hex, in a reserved directory
 of the image root. Every function here is the transaction body of the same name in the file server.
 */
module AttrStore {
  import opened Basics
  import opened Engine
  import AttrCodec

  /** `.nife-attrs` */
  const STORE_DIR: Bytes := [46, 110, 105, 102, 101, 45, 97, 116, 116, 114, 115]

  function HexDigit(n: nat): byte
    requires n < 16
  {
    if n < 10 then 48 + n else 97 + n - 10
  }

  function HexName(id: nat, digits: nat): (r: Bytes)
    ensures |r| == digits
  {
    if digits == 0 then [] else HexName(id / 16, digits - 1) + [HexDigit(id % 16)]
  }

  /** Eight lowercase hex digits. */
  function FileName(id: Id): Bytes { HexName(id, 8) }

  function Pow16(n: nat): nat { if n == 0 then 1 else 16 * Pow16(n - 1) }

  predicate IsHex(b: byte) { 48 <= b <= 57 || 97 <= b <= 102 }

  /** What a run of hex digits spells, highest digit first. */
  function HexValue(s: Bytes): nat
    requires forall b :: b in s ==> IsHex(b)
  {
    if s == [] then 0
    else
      var last := s[|s| - 1];
      assert IsHex(last);
      16 * HexValue(s[..|s| - 1]) + if last <= 57 then last - 48 else last - 87
  }

  lemma {:induction false} HexNameSpells(id: nat, digits: nat)
    requires id < Pow16(digits)
    ensures forall b :: b in HexName(id, digits) ==> IsHex(b)
    ensures HexValue(HexName(id, digits)) == id
  {
    if digits > 0 {
      HexNameSpells(id / 16, digits - 1);
      var s := HexName(id, digits);
      assert s[..digits - 1] == HexName(id / 16, digits - 1) && s[digits - 1] == HexDigit(id % 16);
    }
  }

  /** A blob file's name is the node's id in eight lowercase hex digits. */
  lemma {:induction false} FileNameSpells(id: Id)
    requires id < ID_LIMIT
    ensures |FileName(id)| == 8 && (forall b :: b in FileName(id) ==> IsHex(b)) && HexValue(FileName(id)) == id
  {
    assert Pow16(8) == ID_LIMIT by {
      assert Pow16(2) == 256;
      assert Pow16(4) == 256 * Pow16(2);
      assert Pow16(6) == 256 * Pow16(4);
      assert Pow16(8) == 256 * Pow16(6);
    }
    HexNameSpells(id, 8);
  }

  /** Two nodes never share a blob file. */
  lemma {:induction false} FileNameInjective(a: Id, b: Id)
    requires a < ID_LIMIT && b < ID_LIMIT
    requires FileName(a) == FileName(b)
    ensures a == b
  {
    FileNameSpells(a);
    FileNameSpells(b);
  }

  /** The engine refuses names with a colon; a blob file is never one. */
  lemma {:induction false} HexHasNoColon(id: nat, digits: nat)
    ensures COLON !in HexName(id, digits)
  {
    if digits > 0 {
      HexHasNoColon(id / 16, digits - 1);
    }
  }

  function FindStore(fs: Fs): Result<Option<Id>> {
    match FindNode(fs, ROOT, STORE_DIR)
    case Ok(x) => Ok(Some(x))
    case Err(e) => if e == ENOENT then Ok(None) else Err(e)
  }

  function ReadAttrs(fs: Fs, id: Id): Result<Bytes> {
    var store :- FindStore(fs);
    if store.None? then
      Ok([])
    else
      match FindNode(fs, store.value, FileName(id))
      case Err(e) => if e == ENOENT then Ok([]) else Err(e)
      case Ok(x) =>
        if fs.nodes[x].Dir? || |fs.nodes[x].data| > AttrCodec.MAX_BYTES then
          Err(EIO)
        else
          ReadNode(fs, x, 0, |fs.nodes[x].data|)
  }

  /** Ask the engine to remove the store directory and accept its refusal. */
  function DropStoreIfEmpty(fs: Fs): Result<Fs> {
    match RemoveNode(fs, ROOT, STORE_DIR, true)
    case Ok(removed) => Ok(removed.0)
    case Err(e) => if e == ENOTEMPTY || e == ENOENT then Ok(fs) else Err(e)
  }

  function PurgeAttrs(fs: Fs, id: Id): Result<Fs> {
    var store :- FindStore(fs);
    if store.None? then
      Ok(fs)
    else
      match RemoveNode(fs, store.value, FileName(id), false)
      case Ok(removed) => DropStoreIfEmpty(removed.0)
      case Err(e) => if e == ENOENT then Ok(fs) else Err(e)
  }

  /** The store directory, created when this is the first attribute. */
  function EnsureStore(fs: Fs, hint: Id): Result<(Fs, Id)> {
    var store :- FindStore(fs);
    if store.Some? then Ok((fs, store.value)) else CreateNode(fs, ROOT, STORE_DIR, true, hint)
  }

  /** The node's blob file, created when it has none. */
  function EnsureBlob(fs: Fs, store: Id, id: Id, hint: Id): Result<(Fs, Id)> {
    match FindNode(fs, store, FileName(id))
    case Ok(x) => Ok((fs, x))
    case Err(e) => if e == ENOENT then CreateNode(fs, store, FileName(id), false, hint) else Err(e)
  }

  /** Replace one node's blob: write it, then shrink to exactly its length. An empty blob removes the file. */
  function WriteAttrs(fs: Fs, id: Id, blob: Bytes, dirHint: Id, fileHint: Id): Result<Fs> {
    if blob == [] then
      PurgeAttrs(fs, id)
    else
      var (fs1, store) :- EnsureStore(fs, dirHint);
      var (fs2, x) :- EnsureBlob(fs1, store, id, fileHint);
      var fs3 :- WriteNode(fs2, x, 0, blob);
      TruncateNode(fs3, x, |blob|)
  }
}
