/**
 The filesystem engine (the vendored RedoxFS transaction layer) as a value: the node tree, the
 usage table that `on_open_node`/`on_close_node` maintain, and the release list. Disk layout,
 hashing and the H-tree are abstracted to finite maps. A freed node id may be handed out again:
 which free id a creation receives is the `hint` argument, an arbitrary number, and an id that is
 not free is answered `ENOSPC`.
 */
module Engine {
  import opened Basics

  /** A `TreePtr` id. */
  type Id = nat

  /** The id of the root directory. */
  const ROOT: Id := 1

  /** Node ids are 32 bits wide. */
  const ID_LIMIT: nat := 0x1_0000_0000

  /** The longest name a directory entry can hold, in bytes. */
  const NAME_MAX: nat := 252

  const COLON: byte := 58

  datatype Node =
    | Dir(links: nat, entries: map<Bytes, Id>)
    | File(links: nat, data: Bytes)

  datatype Fs = Fs(nodes: map<Id, Node>, usages: map<Id, nat>, release: set<Id>)

  /** Entry `name` of directory `parent` leads to `x`. */
  predicate Named(nodes: map<Id, Node>, parent: Id, name: Bytes, x: Id) {
    && parent in nodes
    && nodes[parent].Dir?
    && name in nodes[parent].entries
    && nodes[parent].entries[name] == x
  }

  function Usage(fs: Fs, x: Id): nat {
    if x in fs.usages then fs.usages[x] else 0
  }

  predicate FreeId(fs: Fs, x: Id) {
    0 < x < ID_LIMIT && x !in fs.nodes
  }

  function WithLinks(node: Node, links: nat): Node {
    match node
    case Dir(_, entries) => Dir(links, entries)
    case File(_, data) => File(links, data)
  }

  function AddEntry(nodes: map<Id, Node>, parent: Id, name: Bytes, x: Id): map<Id, Node>
    requires parent in nodes && nodes[parent].Dir?
  {
    nodes[parent := nodes[parent].(entries := nodes[parent].entries[name := x])]
  }

  function DropEntry(nodes: map<Id, Node>, parent: Id, name: Bytes): map<Id, Node>
    requires parent in nodes && nodes[parent].Dir?
  {
    nodes[parent := nodes[parent].(entries := nodes[parent].entries - {name})]
  }

  function FindNode(fs: Fs, parent: Id, name: Bytes): Result<Id> {
    if parent !in fs.nodes then
      Err(ENOENT)
    else
      match fs.nodes[parent]
      case File(_, _) => Err(EIO)
      case Dir(_, entries) =>
        if name in entries && entries[name] in fs.nodes then Ok(entries[name]) else Err(ENOENT)
  }

  function CheckName(fs: Fs, parent: Id, name: Bytes): Result<()> {
    if COLON in name || |name| > NAME_MAX then
      Err(EINVAL)
    else if FindNode(fs, parent, name).Ok? then
      Err(EEXIST)
    else
      Ok(())
  }

  function CreateNode(fs: Fs, parent: Id, name: Bytes, isDir: bool, hint: Id): Result<(Fs, Id)> {
    var _ :- CheckName(fs, parent, name);
    if parent !in fs.nodes then
      Err(ENOENT)
    else if fs.nodes[parent].File? then
      Err(EIO)
    else if !FreeId(fs, hint) then
      Err(ENOSPC)
    else
      var made := if isDir then Dir(1, map[]) else File(1, []);
      Ok((fs.(nodes := AddEntry(fs.nodes[hint := made], parent, name, hint)), hint))
  }

  /** Free a node nothing uses, or queue it on the release list while something does. */
  function ReleaseNode(fs: Fs, x: Id): Fs {
    if Usage(fs, x) > 0 then
      fs.(release := fs.release + {x})
    else
      fs.(nodes := fs.nodes - {x})
  }

  /** The id comes back exactly when the node's last link went. */
  function RemoveNode(fs: Fs, parent: Id, name: Bytes, wantDir: bool): Result<(Fs, Option<Id>)> {
    var x :- FindNode(fs, parent, name);
    var node := fs.nodes[x];
    if wantDir && node.File? then
      Err(ENOTDIR)
    else if wantDir && node.entries != map[] && node.links == 1 then
      Err(ENOTEMPTY)
    else if !wantDir && node.Dir? then
      Err(EISDIR)
    else if node.links > 1 then
      var nodes := DropEntry(fs.nodes, parent, name);
      Ok((fs.(nodes := nodes[x := WithLinks(nodes[x], node.links - 1)]), None))
    else
      Ok((ReleaseNode(fs.(nodes := DropEntry(fs.nodes, parent, name)), x), Some(x)))
  }

  function LinkNode(fs: Fs, parent: Id, name: Bytes, x: Id): Result<Fs> {
    if parent !in fs.nodes || x !in fs.nodes then
      Err(ENOENT)
    else if fs.nodes[parent].File? then
      Err(EIO)
    else
      var nodes := AddEntry(fs.nodes, parent, name, x);
      Ok(fs.(nodes := nodes[x := WithLinks(nodes[x], nodes[x].links + 1)]))
  }

  /** Replace whatever `newParent/newName` names, link the original there, drop the old name. */
  function RenameNode(fs: Fs, oldParent: Id, oldName: Bytes, newParent: Id, newName: Bytes): Result<Fs> {
    var x :- FindNode(fs, oldParent, oldName);
    var found := FindNode(fs, newParent, newName);
    if found == Ok(x) then
      Ok(fs)
    else
      var fs1 :- (if found.Ok? then
                    var (fs', _) :- RemoveNode(fs, newParent, newName, fs.nodes[found.value].Dir?);
                    Ok(fs')
                  else
                    Ok(fs));
      var _ :- CheckName(fs1, newParent, newName);
      var fs2 :- LinkNode(fs1, newParent, newName, x);
      var (fs3, _) :- RemoveNode(fs2, oldParent, oldName, fs.nodes[x].Dir?);
      Ok(fs3)
  }

  function OnOpenNode(fs: Fs, x: Id): Fs {
    fs.(usages := fs.usages[x := Usage(fs, x) + 1])
  }

  /** Free every queued node whose usage count has gone. */
  function ReleaseUnusedNodes(fs: Fs): Fs {
    var dead := set x | x in fs.release && Usage(fs, x) == 0;
    fs.(nodes := fs.nodes - dead, release := fs.release - dead)
  }

  function OnCloseNode(fs: Fs, x: Id): Result<Fs> {
    if x !in fs.usages then
      Ok(fs)
    else if fs.usages[x] == 0 then
      Err(EINVAL)
    else if fs.usages[x] > 1 then
      Ok(fs.(usages := fs.usages[x := fs.usages[x] - 1]))
    else
      Ok(ReleaseUnusedNodes(fs.(usages := fs.usages - {x})))
  }

  function Zeros(n: nat): (r: Bytes)
    ensures |r| == n && forall i :: 0 <= i < n ==> r[i] == 0
  {
    seq(n, i => 0)
  }

  /** `was` resized to `n` bytes: cut, or extended with zeros. */
  function Resized(was: Bytes, n: nat): (r: Bytes)
    ensures |r| == n
    ensures forall i :: 0 <= i < n ==> r[i] == (if i < |was| then was[i] else 0)
  {
    if n <= |was| then was[..n] else was + Zeros(n - |was|)
  }

  /** `was` with `data` laid over it at `offset`. The bytes past the new ones stay: a write never truncates. */
  function Overlaid(was: Bytes, offset: nat, data: Bytes): (r: Bytes)
    ensures |r| == if |was| < offset + |data| then offset + |data| else |was|
    ensures forall i :: 0 <= i < |r| ==>
      r[i] == (if offset <= i < offset + |data| then data[i - offset] else if i < |was| then was[i] else 0)
  {
    var base := if |was| < offset + |data| then Resized(was, offset + |data|) else was;
    base[..offset] + data + base[offset + |data|..]
  }

  function ReadNode(fs: Fs, x: Id, offset: nat, len: nat): Result<Bytes> {
    if x !in fs.nodes then
      Err(ENOENT)
    else if fs.nodes[x].Dir? then
      Err(EIO)
    else
      var data := fs.nodes[x].data;
      Ok(if offset >= |data| then [] else if offset + len <= |data| then data[offset..offset + len] else data[offset..])
  }

  function WriteNode(fs: Fs, x: Id, offset: nat, data: Bytes): Result<Fs> {
    if x !in fs.nodes then
      Err(ENOENT)
    else if fs.nodes[x].Dir? then
      Err(EIO)
    else
      Ok(fs.(nodes := fs.nodes[x := fs.nodes[x].(data := Overlaid(fs.nodes[x].data, offset, data))]))
  }

  function TruncateNode(fs: Fs, x: Id, size: nat): Result<Fs> {
    if x !in fs.nodes then
      Err(ENOENT)
    else if fs.nodes[x].Dir? then
      Err(EIO)
    else
      Ok(fs.(nodes := fs.nodes[x := fs.nodes[x].(data := Resized(fs.nodes[x].data, size))]))
  }
}
