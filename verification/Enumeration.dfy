/**
 Listing a directory through the service, a page at a time. The whole listing is every visible name
 once, in byte order, never the attribute store; a client that follows the cursor until a page comes
 back empty sees exactly that, if and only if every record fits its buffer.
 */
module Enumeration {
  import opened Basics
  import opened Engine
  import opened AttrStore
  import opened Rights
  import opened Verbs
  import opened FileServer
  import opened Listing

  /** The listing is the directory's entries less the store, each once, in order, with its kind. */
  lemma {:induction false} DirentsAre(fs: Fs, d: Id)
    requires d in fs.nodes && fs.nodes[d].Dir?
    ensures var ds, entries := Dirents(fs, d), fs.nodes[d].entries;
            && |ds| == |entries.Keys - {STORE_DIR}|
            && (forall i :: 0 <= i < |ds| ==>
                  && ds[i].name in entries && ds[i].name != STORE_DIR
                  && ds[i].isDir == (entries[ds[i].name] in fs.nodes && fs.nodes[entries[ds[i].name]].Dir?))
            && (forall n :: n in entries && n != STORE_DIR ==> exists i :: 0 <= i < |ds| && ds[i].name == n)
            && (forall i, j :: 0 <= i < j < |ds| ==> Before(ds[i].name, ds[j].name))
  {
    var ds, entries := Dirents(fs, d), fs.nodes[d].entries;
    var names := Sorted(entries.Keys - {STORE_DIR});
    SortedIsListing(entries.Keys - {STORE_DIR});
    forall i | 0 <= i < |ds| ensures ds[i].name in entries && ds[i].name != STORE_DIR {
      assert names[i] in names;
    }
    forall n | n in entries && n != STORE_DIR ensures exists i :: 0 <= i < |ds| && ds[i].name == n {
      assert n in names;
      var i :| 0 <= i < |names| && names[i] == n;
      assert ds[i].name == n;
    }
  }

  predicate Listable(s: State, h: nat) {
    && DirAt(s, h).Ok? && ENUMERATE in DirAt(s, h).value.rights
    && DirAt(s, h).value.node in s.fs.nodes && s.fs.nodes[DirAt(s, h).value.node].Dir?
  }

  function Listed(s: State, h: nat): seq<Dirent>
    requires Listable(s, h)
  {
    Dirents(s.fs, DirAt(s, h).value.node)
  }

  /** The client's walk: ask for a page, take its records, move the cursor past them, stop at 0 bytes. */
  method ListAll(server: Server, h: nat, room: nat) returns (seen: seq<Dirent>)
    requires Listable(server.Now(), h)
    ensures |seen| <= |Listed(server.Now(), h)| && seen == Listed(server.Now(), h)[..|seen|]
    ensures var ds := Listed(server.Now(), h);
            seen == ds <==> forall i :: 0 <= i < |ds| ==> Encodable(ds[i]) && RecordLen(ds[i]) <= room
  {
    ghost var ds := Listed(server.Now(), h);
    seen := [];
    var cursor := 0;
    while true
      invariant cursor == |seen| <= |ds| && seen == ds[..cursor]
      invariant forall i :: 0 <= i < cursor ==> Encodable(ds[i]) && RecordLen(ds[i]) <= room
      decreases |ds| - cursor
    {
      var page := server.ReadDirAt(h, cursor, room);
      assert page == Ok(Page(ds, cursor, room));
      PageDecodes(ds, cursor, room);
      FittingRoom(ds[cursor..], room);
      if page.value == [] {
        break;
      }
      var got := Decode(page.value);
      WalkOn(ds, cursor, |got|, room);
      seen := seen + got;
      cursor := cursor + |got|;
    }
    if cursor < |ds| {
      assert ds[cursor..][0] == ds[cursor];
    }
  }

  lemma {:induction false} WalkOn(ds: seq<Dirent>, cursor: nat, n: nat, room: nat)
    requires cursor + n <= |ds|
    requires forall i :: 0 <= i < cursor ==> Encodable(ds[i]) && RecordLen(ds[i]) <= room
    requires forall i :: 0 <= i < n ==> Encodable(ds[cursor..][i]) && RecordLen(ds[cursor..][i]) <= room
    ensures ds[..cursor] + ds[cursor..][..n] == ds[..cursor + n]
    ensures forall i :: 0 <= i < cursor + n ==> Encodable(ds[i]) && RecordLen(ds[i]) <= room
  {
    forall i | cursor <= i < cursor + n ensures Encodable(ds[i]) && RecordLen(ds[i]) <= room {
      assert ds[i] == ds[cursor..][i - cursor];
    }
  }
}
