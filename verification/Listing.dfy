/**
 Directory enumeration. A page of a listing is a run of records (a flags byte, a length byte, the
 name), filled greedily from a cursor that counts visible entries; a client follows the cursor until
 a page comes back empty. Also the byte order listings are sorted in.
 */
module Listing {
  import opened Basics

  datatype Dirent = Dirent(name: Bytes, isDir: bool)

  function RecordLen(d: Dirent): nat { 2 + |d.name| }

  /** One length byte: a longer name has no record. */
  predicate Encodable(d: Dirent) { |d.name| <= 255 }

  function EncodeDirent(d: Dirent): (r: Bytes)
    requires Encodable(d)
    ensures |r| == RecordLen(d) && r[0] == (if d.isDir then 1 else 0) && r[1] == |d.name| && r[2..] == d.name
  {
    [if d.isDir then 1 else 0, |d.name|] + d.name
  }

  /** What fits: the longest run of whole records from the front of `ds` that `room` bytes hold. */
  function Fitting(ds: seq<Dirent>, room: nat): (n: nat)
    ensures n <= |ds|
  {
    if ds == [] || !Encodable(ds[0]) || RecordLen(ds[0]) > room then 0
    else 1 + Fitting(ds[1..], room - RecordLen(ds[0]))
  }

  function EncodeAll(ds: seq<Dirent>): Bytes
    requires forall i :: 0 <= i < |ds| ==> Encodable(ds[i])
  {
    if ds == [] then [] else EncodeDirent(ds[0]) + EncodeAll(ds[1..])
  }

  lemma {:induction false} FittingEncodable(ds: seq<Dirent>, room: nat)
    ensures forall i :: 0 <= i < Fitting(ds, room) ==> Encodable(ds[i])
    ensures forall i :: 0 <= i < Fitting(ds, room) ==> Encodable(ds[..Fitting(ds, room)][i])
  {
    if ds != [] && Encodable(ds[0]) && RecordLen(ds[0]) <= room {
      FittingEncodable(ds[1..], room - RecordLen(ds[0]));
      forall i | 0 <= i < Fitting(ds, room) ensures Encodable(ds[i]) {
        assert i == 0 || ds[i] == ds[1..][i - 1];
      }
    }
  }

  /** One page: the records of the entries from `cursor` on that fit in `room` bytes. */
  function Page(ds: seq<Dirent>, cursor: nat, room: nat): Bytes {
    if cursor > |ds| then []
    else
      FittingEncodable(ds[cursor..], room);
      EncodeAll(ds[cursor..][..Fitting(ds[cursor..], room)])
  }

  /** The records a client reads out of a page; a record running off the end is not read as a name. */
  function Decode(buf: Bytes): seq<Dirent>
    decreases |buf|
  {
    if |buf| < 2 || 2 + buf[1] > |buf| then []
    else [Dirent(buf[2..2 + buf[1]], buf[0] % 2 == 1)] + Decode(buf[2 + buf[1]..])
  }

  lemma {:induction false} DecodeFront(d: Dirent, rest: Bytes)
    requires Encodable(d)
    ensures Decode(EncodeDirent(d) + rest) == [d] + Decode(rest)
  {
    var e := EncodeDirent(d);
    assert (e + rest)[2..|e|] == d.name;
    assert (e + rest)[|e|..] == rest;
  }

  lemma {:induction false} DecodeEncoded(ds: seq<Dirent>)
    requires forall i :: 0 <= i < |ds| ==> Encodable(ds[i])
    ensures Decode(EncodeAll(ds)) == ds
    ensures EncodeAll(ds) == [] <==> ds == []
  {
    if ds != [] {
      DecodeFront(ds[0], EncodeAll(ds[1..]));
      DecodeEncoded(ds[1..]);
    }
  }

  /** A page holds whole records only: reading it back gives exactly the entries that were put in it. */
  lemma {:induction false} PageDecodes(ds: seq<Dirent>, cursor: nat, room: nat)
    requires cursor <= |ds|
    ensures var n := Fitting(ds[cursor..], room);
            Decode(Page(ds, cursor, room)) == ds[cursor..][..n] && (Page(ds, cursor, room) == [] <==> n == 0)
  {
    FittingEncodable(ds[cursor..], room);
    DecodeEncoded(ds[cursor..][..Fitting(ds[cursor..], room)]);
  }

  lemma {:induction false} EncodeSnoc(ds: seq<Dirent>, d: Dirent)
    requires forall i :: 0 <= i < |ds| ==> Encodable(ds[i])
    requires Encodable(d)
    ensures forall i :: 0 <= i < |ds + [d]| ==> Encodable((ds + [d])[i])
    ensures EncodeAll(ds + [d]) == EncodeAll(ds) + EncodeDirent(d)
  {
    if ds == [] {
      assert [d][1..] == [];
    } else {
      assert (ds + [d])[1..] == ds[1..] + [d];
      EncodeSnoc(ds[1..], d);
    }
  }

  /** How the greedy fill stops: at the end, or at the first entry that has no record or no room. */
  lemma {:induction false} FittingIs(ds: seq<Dirent>, room: nat, n: nat)
    requires n <= |ds|
    requires forall i :: 0 <= i < n ==> Encodable(ds[..n][i])
    requires |EncodeAll(ds[..n])| <= room
    requires n == |ds| || !Encodable(ds[n]) || |EncodeAll(ds[..n])| + RecordLen(ds[n]) > room
    ensures Fitting(ds, room) == n
  {
    if n > 0 {
      assert ds[..n][0] == ds[0] && ds[..n][1..] == ds[1..][..n - 1];
      FittingIs(ds[1..], room - RecordLen(ds[0]), n - 1);
    }
  }

  /** A page of whole records from the cursor on: they fit, and the next one, if there is one, does not. */
  predicate FilledFrom(ds: seq<Dirent>, cursor: nat, room: nat, page: Bytes) {
    var got := Decode(page);
    && |page| <= room && (page == [] <==> got == [])
    && if cursor > |ds| then got == []
       else
         && cursor + |got| <= |ds| && got == ds[cursor..cursor + |got|]
         && (cursor + |got| < |ds| ==> |ds[cursor + |got|].name| > 255 || |page| + 2 + |ds[cursor + |got|].name| > room)
  }

  lemma {:induction false} FittingMaximal(ds: seq<Dirent>, room: nat)
    requires forall i :: 0 <= i < Fitting(ds, room) ==> Encodable(ds[..Fitting(ds, room)][i])
    ensures var n := Fitting(ds, room);
            && |EncodeAll(ds[..n])| <= room
            && (n < |ds| ==> !Encodable(ds[n]) || |EncodeAll(ds[..n])| + RecordLen(ds[n]) > room)
  {
    var n := Fitting(ds, room);
    if n > 0 {
      FittingEncodable(ds[1..], room - RecordLen(ds[0]));
      FittingMaximal(ds[1..], room - RecordLen(ds[0]));
      assert ds[..n][0] == ds[0] && ds[..n][1..] == ds[1..][..n - 1];
    }
  }

  lemma {:induction false} PageIsFilled(ds: seq<Dirent>, cursor: nat, room: nat)
    ensures FilledFrom(ds, cursor, room, Page(ds, cursor, room))
  {
    if cursor <= |ds| {
      var n := Fitting(ds[cursor..], room);
      PageDecodes(ds, cursor, room);
      FittingEncodable(ds[cursor..], room);
      FittingMaximal(ds[cursor..], room);
      assert ds[cursor..][..n] == ds[cursor..cursor + n];
    }
  }

  /** The fill loop: encode entries from the cursor, stop before a record that will not fit. */
  method FillPage(ds: seq<Dirent>, cursor: nat, room: nat) returns (page: Bytes)
    ensures page == Page(ds, cursor, room)
    ensures FilledFrom(ds, cursor, room, page)
  {
    PageIsFilled(ds, cursor, room);
    page := [];
    if cursor >= |ds| {
      assert cursor == |ds| ==> ds[cursor..] == [];
      return;
    }
    ghost var from := ds[cursor..];
    var i := cursor;
    while i < |ds|
      invariant cursor <= i <= |ds|
      invariant forall d :: d in from[..i - cursor] ==> Encodable(d)
      invariant page == EncodeAll(from[..i - cursor]) && |page| <= room
    {
      if !Encodable(ds[i]) || |page| + RecordLen(ds[i]) > room {
        break;
      }
      assert from[..i + 1 - cursor] == from[..i - cursor] + [ds[i]];
      EncodeSnoc(from[..i - cursor], ds[i]);
      page := page + EncodeDirent(ds[i]);
      i := i + 1;
    }
    FittingIs(from, room, i - cursor);
  }

  lemma {:induction false} FittingRoom(ds: seq<Dirent>, room: nat)
    ensures forall i :: 0 <= i < Fitting(ds, room) ==> Encodable(ds[i]) && RecordLen(ds[i]) <= room
    ensures Fitting(ds, room) == 0 && ds != [] ==> !Encodable(ds[0]) || RecordLen(ds[0]) > room
  {
    if ds != [] && Encodable(ds[0]) && RecordLen(ds[0]) <= room {
      FittingRoom(ds[1..], room - RecordLen(ds[0]));
      forall i | 0 <= i < Fitting(ds, room) ensures Encodable(ds[i]) && RecordLen(ds[i]) <= room {
        assert i == 0 || ds[i] == ds[1..][i - 1];
      }
    }
  }

  // --- the order of a listing ---

  /** Byte-wise lexicographic order, the order names compare in. */
  predicate Before(a: Bytes, b: Bytes) {
    if b == [] then false
    else if a == [] then true
    else a[0] < b[0] || (a[0] == b[0] && Before(a[1..], b[1..]))
  }

  /** Alike as far as `k`, where `a` ends first or has the smaller byte. */
  predicate LessAt(a: Bytes, b: Bytes, k: nat) {
    && k <= |a| && k < |b| && a[..k] == b[..k]
    && (k == |a| || a[k] < b[k])
  }

  lemma {:induction false} BeforeIs(a: Bytes, b: Bytes)
    ensures Before(a, b) <==> exists k: nat :: LessAt(a, b, k)
  {
    if a == [] && b != [] {
      assert LessAt(a, b, 0);
    } else if a != [] && b != [] {
      BeforeIs(a[1..], b[1..]);
      if Before(a, b) {
        if a[0] < b[0] {
          assert LessAt(a, b, 0);
        } else {
          var k: nat :| LessAt(a[1..], b[1..], k);
          assert a[..k + 1] == [a[0]] + a[1..][..k] && b[..k + 1] == [b[0]] + b[1..][..k];
          assert LessAt(a, b, k + 1);
        }
      }
      if k: nat :| LessAt(a, b, k) {
        if k > 0 {
          assert a[0] == a[..k][0] == b[..k][0] == b[0];
          assert a[1..][..k - 1] == a[..k][1..] && b[1..][..k - 1] == b[..k][1..];
          assert LessAt(a[1..], b[1..], k - 1);
        }
      }
    }
  }

  lemma {:induction false} BeforeTotal(a: Bytes, b: Bytes)
    ensures a == b || Before(a, b) || Before(b, a)
    ensures !(Before(a, b) && Before(b, a)) && !Before(a, a)
  {
    if a != [] && b != [] {
      BeforeTotal(a[1..], b[1..]);
      if a[0] == b[0] && a[1..] == b[1..] {
        assert a == [a[0]] + a[1..] && b == [b[0]] + b[1..];
      }
    }
    if a != [] {
      BeforeTotal(a[1..], a[1..]);
    }
  }

  lemma {:induction false} BeforeTransitive(a: Bytes, b: Bytes, c: Bytes)
    requires Before(a, b) && Before(b, c)
    ensures Before(a, c)
  {
    if a != [] && a[0] == b[0] && b[0] == c[0] {
      BeforeTransitive(a[1..], b[1..], c[1..]);
    }
  }

  predicate IsFirst(names: set<Bytes>, n: Bytes) {
    n in names && forall m :: m in names && m != n ==> Before(n, m)
  }

  lemma {:induction false} FirstExists(names: set<Bytes>)
    requires names != {}
    ensures exists n :: IsFirst(names, n)
    decreases |names|
  {
    var x :| x in names;
    if names == {x} {
      assert IsFirst(names, x);
    } else {
      var rest := names - {x};
      assert names == rest + {x};
      FirstExists(rest);
      var y :| IsFirst(rest, y);
      BeforeTotal(x, y);
      var n := if Before(x, y) then x else y;
      forall m | m in names && m != n ensures Before(n, m) {
        if n == x && m != y {
          BeforeTransitive(x, y, m);
        }
      }
      assert IsFirst(names, n);
    }
  }

  function First(names: set<Bytes>): (n: Bytes)
    requires names != {}
    ensures IsFirst(names, n)
  {
    FirstExists(names);
    assert forall a, b | IsFirst(names, a) && IsFirst(names, b) :: a == b by {
      forall a, b | IsFirst(names, a) && IsFirst(names, b) ensures a == b {
        BeforeTotal(a, b);
      }
    }
    var n :| n in names && IsFirst(names, n);
    n
  }

  function Sorted(names: set<Bytes>): seq<Bytes>
    decreases |names|
  {
    if names == {} then [] else
      var n := First(names);
      [n] + Sorted(names - {n})
  }

  /** A sorted listing holds each name of the set exactly once, in order. */
  lemma {:induction false} SortedIsListing(names: set<Bytes>)
    ensures |Sorted(names)| == |names|
    ensures forall n :: n in Sorted(names) <==> n in names
    ensures forall i, j :: 0 <= i < j < |Sorted(names)| ==> Before(Sorted(names)[i], Sorted(names)[j])
    decreases |names|
  {
    if names != {} {
      var n := First(names);
      var rest := names - {n};
      SortedIsListing(rest);
      assert names == rest + {n};
      forall j | 0 < j < |Sorted(names)| ensures Before(n, Sorted(names)[j]) {
        assert Sorted(names)[j] == Sorted(rest)[j - 1];
        assert Sorted(rest)[j - 1] in Sorted(rest);
      }
    }
  }
}
