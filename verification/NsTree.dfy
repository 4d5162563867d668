/**
 The namespace as a table: which component patterns name a node, of which kind, and whether everything below
 belongs to it.  `ns_resolve` is proved to find exactly what the table says.
 */
module NsTree {
  import opened Basics
  import opened Paths
  import opened NsModel

  /** What a component below the machine number has to be. */
  datatype Slot =
    | Is(word: string)
    | Device              // the class of the storage device that is present
    | Number              // a partition number
    | Any

  /** A node: the slots of its path, its kind, and whether it stands for all paths below it as well. */
  datatype Node = Node(path: seq<Slot>, kind: Kind, subtree: bool)

  const NODES: seq<Node> := [
    Node([], Root, false),
    Node([Is("hardware")], HardwareDir, false),
    Node([Is("hardware"), Is("memory")], HardwareDir, false),
    Node([Is("hardware"), Is("memory"), Is("ram")], MemoryRam, false),
    Node([Is("hardware"), Is("memory"), Is("info")], HwInfo, false),
    Node([Is("hardware"), Is("storage")], HardwareDir, false),
    Node([Is("hardware"), Is("storage"), Device], StorageDevice, false),
    Node([Is("hardware"), Is("storage"), Device, Is("partitions")], PartitionsDir, false),
    Node([Is("hardware"), Is("storage"), Device, Is("partitions"), Number], Partition, true),
    Node([Is("hardware"), Is("cpu")], Cpu, false),
    Node([Is("hardware"), Is("cpu"), Is("id")], HwInfo, false),
    Node([Is("hardware"), Is("platform")], HwInfo, false),
    Node([Is("hardware"), Is("pci")], HwInfo, false),
    Node([Is("system")], SystemDir, false),
    Node([Is("system"), Any], SystemNode, true),
    Node([Is("dev")], DevDir, false),
    Node([Is("dev"), Any], DevShim, true),
    Node([Is("user")], UserStore, true)
  ]

  predicate Fits(slot: Slot, c: string, owner: Option<string>) {
    match slot
    case Is(w) => c == w
    case Device => (c == "hdd" || c == "ssd") && owner == Some(c)
    case Number => Index(c).Some?
    case Any => true
  }

  predicate Matches(node: Node, cs: seq<string>, owner: Option<string>) {
    && (if node.subtree then |cs| >= |node.path| + 1 else |cs| == |node.path| + 1)
    && forall i :: 0 <= i < |node.path| ==> Fits(node.path[i], cs[i + 1], owner)
  }

  /** The component at the first slot of that form, if there is one. */
  function Marked(path: seq<Slot>, cs: seq<string>, slot: Slot): Option<string>
    requires |cs| >= |path| + 1
  {
    if path == [] then None
    else if path[0] == slot then Some(cs[1])
    else Marked(path[1..], cs[1..], slot)
  }

  /** What a path with components `cs` names when `node` matches it. */
  function Found(node: Node, cs: seq<string>): Resource
    requires |cs| >= |node.path| + 1 && |cs[0]| == 1
  {
    var number := Marked(node.path, cs, Number);
    Resource(node.kind, cs[0][0] as int - '0' as int,
             if number.Some? && Index(number.value).Some? then Index(number.value).value else -1,
             Marked(node.path, cs, Device))
  }

  // ---------- matching slot by slot ----------

  lemma Unfold(node: Node, cs: seq<string>, owner: Option<string>)
    requires |node.path| <= 5
    ensures Matches(node, cs, owner) <==>
      && (if node.subtree then |cs| >= |node.path| + 1 else |cs| == |node.path| + 1)
      && (|node.path| > 0 ==> Fits(node.path[0], cs[1], owner))
      && (|node.path| > 1 ==> Fits(node.path[1], cs[2], owner))
      && (|node.path| > 2 ==> Fits(node.path[2], cs[3], owner))
      && (|node.path| > 3 ==> Fits(node.path[3], cs[4], owner))
      && (|node.path| > 4 ==> Fits(node.path[4], cs[5], owner))
  {
  }

  /** The words that stand side by side in the tree are different. */
  lemma Words()
    ensures "hardware" != "system" && "hardware" != "dev" && "hardware" != "user" && "system" != "dev"
    ensures "system" != "user" && "dev" != "user"
    ensures "memory" != "storage" && "memory" != "cpu" && "memory" != "platform" && "memory" != "pci"
    ensures "storage" != "cpu" && "storage" != "platform" && "storage" != "pci" && "cpu" != "platform"
    ensures "cpu" != "pci" && "platform" != "pci" && "ram" != "info"
  {
    assert "cpu"[0] != "pci"[0];
  }

  /** The position in the table of the node for these components, or -1. */
  ghost function Place(cs: seq<string>, owner: Option<string>): (r: int)
    requires |cs| >= 1
    ensures -1 <= r < |NODES|
  {
    var n := |cs|;
    if n == 1 then 0
    else if cs[1] == "hardware" then if n == 2 then 1 else HardwarePlace(cs, owner)
    else if cs[1] == "system" then if n == 2 then 13 else 14
    else if cs[1] == "dev" then if n == 2 then 15 else 16
    else if cs[1] == "user" then 17
    else -1
  }

  ghost function HardwarePlace(cs: seq<string>, owner: Option<string>): (r: int)
    requires |cs| >= 3
    ensures r == -1 || 2 <= r <= 12
  {
    var n := |cs|;
    if cs[2] == "memory" then
      if n == 3 then 2 else if n == 4 && cs[3] == "ram" then 3 else if n == 4 && cs[3] == "info" then 4 else -1
    else if cs[2] == "storage" then StoragePlace(cs, owner)
    else if cs[2] == "cpu" then if n == 3 then 9 else if n == 4 && cs[3] == "id" then 10 else -1
    else if n == 3 && cs[2] == "platform" then 11
    else if n == 3 && cs[2] == "pci" then 12
    else -1
  }

  ghost function StoragePlace(cs: seq<string>, owner: Option<string>): (r: int)
    requires |cs| >= 3
    ensures r == -1 || 5 <= r <= 8
  {
    var n := |cs|;
    if n == 3 then 5
    else if !Fits(Device, cs[3], owner) then -1
    else if n == 4 then 6
    else if cs[4] != "partitions" then -1
    else if n == 5 then 7
    else if Index(cs[5]).Some? then 8
    else -1
  }

  /** The nodes right below the machine number. */
  lemma PlacedTop(cs: seq<string>, owner: Option<string>, i: int)
    requires |cs| >= 1 && (i == 0 || i == 1 || 13 <= i <= 17)
    ensures Matches(NODES[i], cs, owner) <==> Place(cs, owner) == i
  {
    Words();
    Unfold(NODES[i], cs, owner);
  }

  lemma PlacedHardware(cs: seq<string>, owner: Option<string>, i: int)
    requires |cs| >= 1 && (2 <= i <= 4 || 9 <= i <= 12)
    ensures Matches(NODES[i], cs, owner) <==> Place(cs, owner) == i
  {
    Words();
    Unfold(NODES[i], cs, owner);
  }

  lemma PlacedStorage(cs: seq<string>, owner: Option<string>, i: int)
    requires |cs| >= 1 && 5 <= i <= 8
    ensures Matches(NODES[i], cs, owner) <==> Place(cs, owner) == i
  {
    Words();
    Unfold(NODES[i], cs, owner);
  }

  lemma Placed(cs: seq<string>, owner: Option<string>, i: int)
    requires |cs| >= 1 && 0 <= i < |NODES|
    ensures Matches(NODES[i], cs, owner) <==> Place(cs, owner) == i
  {
    if i == 0 || i == 1 || 13 <= i {
      PlacedTop(cs, owner, i);
    } else if 5 <= i <= 8 {
      PlacedStorage(cs, owner, i);
    } else {
      PlacedHardware(cs, owner, i);
    }
  }

  // ---------- what is found ----------

  lemma {:induction false} MarkedAt(path: seq<Slot>, cs: seq<string>, slot: Slot, k: nat)
    requires |cs| >= |path| + 1 && k <= |path| && (forall j :: 0 <= j < k ==> path[j] != slot)
    requires k < |path| ==> path[k] == slot
    ensures Marked(path, cs, slot) == if k < |path| then Some(cs[k + 1]) else None
    decreases k
  {
    if k > 0 {
      MarkedAt(path[1..], cs[1..], slot, k - 1);
    }
  }

  /** Only storage nodes mark a device, the third component, and only partitions a number, the fifth. */
  lemma FoundAt(i: int, cs: seq<string>)
    requires 0 <= i < |NODES| && |cs| >= |NODES[i].path| + 1 && |cs[0]| == 1
    ensures Found(NODES[i], cs) ==
      Resource(NODES[i].kind, cs[0][0] as int - '0' as int,
               if i == 8 && Index(cs[5]).Some? then Index(cs[5]).value else -1,
               if 6 <= i <= 8 then Some(cs[3]) else None)
  {
    var path := NODES[i].path;
    MarkedAt(path, cs, Device, if 6 <= i <= 8 then 2 else |path|);
    MarkedAt(path, cs, Number, if i == 8 then 4 else |path|);
  }

  lemma NamedTop(cs: seq<string>, owner: Option<string>)
    requires |cs| >= 1 && |cs[0]| == 1 && (|cs| <= 2 || cs[1] != "hardware")
    ensures var i, d := Place(cs, owner), cs[0][0] as int - '0' as int;
      Named(cs, owner) == Resource(if i == -1 then Unresolved else NODES[i].kind, d, -1, None) && !(6 <= i <= 8)
  {
    Words();
  }

  lemma NamedHardware(cs: seq<string>, owner: Option<string>)
    requires |cs| >= 3 && |cs[0]| == 1 && cs[1] == "hardware" && cs[2] != "storage"
    ensures var i, d := Place(cs, owner), cs[0][0] as int - '0' as int;
      Named(cs, owner) == Resource(if i == -1 then Unresolved else NODES[i].kind, d, -1, None) && !(6 <= i <= 8)
  {
    Words();
  }

  lemma NamedStorage(cs: seq<string>, owner: Option<string>)
    requires |cs| >= 3 && |cs[0]| == 1 && cs[1] == "hardware" && cs[2] == "storage"
    ensures var i, d := Place(cs, owner), cs[0][0] as int - '0' as int;
      Named(cs, owner) ==
        if i == -1 then Resource(Unresolved, d, -1, None)
        else Resource(NODES[i].kind, d, if i == 8 then Index(cs[5]).value else -1, if i == 5 then None else Some(cs[3]))
  {
    Words();
  }

  /** What the table says about components, without the limit on their number. */
  lemma NamedByTable(cs: seq<string>, owner: Option<string>, i: int)
    requires |cs| >= 1 && |cs[0]| == 1 && i == Place(cs, owner)
    ensures i == -1 ==> Named(cs, owner) == Resource(Unresolved, cs[0][0] as int - '0' as int, -1, None)
    ensures i != -1 ==> Matches(NODES[i], cs, owner) && Named(cs, owner) == Found(NODES[i], cs)
  {
    if i != -1 {
      Placed(cs, owner, i);
      FoundAt(i, cs);
    }
    if |cs| <= 2 || cs[1] != "hardware" {
      NamedTop(cs, owner);
    } else if cs[2] != "storage" {
      NamedHardware(cs, owner);
    } else {
      NamedStorage(cs, owner);
    }
  }

  /** Components behind the sixteenth do not matter. */
  lemma NamedFirst(cs: seq<string>, owner: Option<string>)
    requires |cs| >= 1 && cs[0] != []
    ensures First(cs, MAX_DEPTH)[0] == cs[0] && Named(First(cs, MAX_DEPTH), owner) == Named(cs, owner)
  {
    var f := First(cs, MAX_DEPTH);
    assert forall i :: 0 <= i < |f| ==> f[i] == cs[i];
  }

  /** At most one node matches. */
  lemma OneMatch(cs: seq<string>, owner: Option<string>, i: int, j: int)
    requires |cs| >= 1 && 0 <= i < |NODES| && 0 <= j < |NODES|
    requires Matches(NODES[i], cs, owner) && Matches(NODES[j], cs, owner)
    ensures i == j
  {
    Placed(cs, owner, i);
    Placed(cs, owner, j);
  }

  /** `r` is what the table says about the components `cs`; it is unresolved exactly if no node matches. */
  ghost predicate ByTable(r: Resource, cs: seq<string>, owner: Option<string>) {
    && |cs| >= 1 && |cs[0]| == 1
    && (forall i :: 0 <= i < |NODES| && Matches(NODES[i], cs, owner) ==> r == Found(NODES[i], cs))
    && (r.kind == Unresolved <==> forall i :: 0 <= i < |NODES| ==> !Matches(NODES[i], cs, owner))
    && (r.kind == Unresolved ==> r == Resource(Unresolved, cs[0][0] as int - '0' as int, -1, None))
  }

  lemma NamedAsTable(cs: seq<string>, owner: Option<string>)
    requires |cs| >= 1 && |cs[0]| == 1
    ensures ByTable(Named(cs, owner), cs, owner)
  {
    var k := Place(cs, owner);
    NamedByTable(cs, owner, k);
    forall i | 0 <= i < |NODES| ensures Matches(NODES[i], cs, owner) <==> i == k {
      Placed(cs, owner, i);
    }
    NoneUnresolved();
  }

  lemma NoneUnresolved()
    ensures forall i :: 0 <= i < |NODES| ==> NODES[i].kind != Unresolved
  {
  }

  /**
   `ns_resolve` by the table.  A valid path names exactly what the node that matches its canonical components
   says: its kind, the machine, and the device and partition number where the node marks them.
   */
  lemma ResolvesByTable(path: string, owner: Option<string>)
    requires Canonical(path, MAX_PATH).Some?
    ensures var canon, res := Canonical(path, MAX_PATH).value, Resolve(path, owner);
      res.Resolved? && res.canonical == canon && ByTable(res.resource, Split(canon), owner)
  {
    CanonicalIsNormal(path, MAX_PATH);
    var cs := Split(Canonical(path, MAX_PATH).value);
    NamedFirst(cs, owner);
    NamedAsTable(cs, owner);
  }

  /** The kind of a path is `k` if and only if a node of that kind matches its canonical components. */
  lemma KindByTable(path: string, owner: Option<string>, k: Kind)
    requires Canonical(path, MAX_PATH).Some? && k != Unresolved
    ensures var cs, res := Split(Canonical(path, MAX_PATH).value), Resolve(path, owner);
      && res.Resolved?
      && (res.resource.kind == k <==>
            exists i :: 0 <= i < |NODES| && NODES[i].kind == k && Matches(NODES[i], cs, owner))
  {
    ResolvesByTable(path, owner);
  }

  // ---------- which paths are files ----------

  /** A partition number is at least 1. */
  lemma PartitionNumber(cs: seq<string>, owner: Option<string>)
    requires |cs| >= 1 && cs[0] != [] && Named(cs, owner).kind == Partition
    ensures 1 <= Named(cs, owner).part <= 1000000
  {
  }

  lemma ResolvedNumber(path: string, owner: Option<string>)
    requires Resolve(path, owner).Resolved? && Resolve(path, owner).resource.kind == Partition
    ensures 1 <= Resolve(path, owner).resource.part <= 1000000
  {
    PartitionNumber(First(Split(Canonical(path, MAX_PATH).value), MAX_DEPTH), owner);
  }

  /** Partition `n` is not the mounted volume: not listed, or starting elsewhere. */
  predicate Elsewhere(n: int, vols: Volumes)
    requires n >= 1
  {
    n > |vols.starts| || vols.starts[n - 1] != vols.base || vols.base == 0
  }

  /** What `ns_to_fs_path` makes of a resource. */
  ghost predicate Outcome(x: Resource, r: FsResult, vols: Volumes) {
    && (r == UnknownResource <==> x.kind == Unresolved)
    && (r == NoFilesystem <==> x.kind in {Root, HardwareDir, StorageDevice, PartitionsDir, SystemDir, DevDir})
    && (r == OtherVolume <==> x.kind == Partition && x.part >= 1 && Elsewhere(x.part, vols))
    && r != NotNamespace
  }

  /** A slash and `tail`, if they fit into `max` characters with an end mark. */
  ghost predicate Written(r: FsResult, tail: string, max: nat) {
    r == if |tail| + 2 <= max then Fs("/" + tail) else ParseError
  }

  /** The text of a file path: content in full, the others without the components of their node. */
  ghost predicate Text(x: Resource, canonical: string, r: FsResult, max: nat, vols: Volumes) {
    var cs := Split(canonical);
    && (x.kind in {SystemNode, DevShim, HwInfo, MemoryRam, Cpu} ==> Written(r, canonical, max))
    && (x.kind == UserStore && |cs| >= 2 ==> Written(r, Join(cs[2..]), max))
    && (x.kind == Partition && |cs| >= 6 && x.part >= 1 && !Elsewhere(x.part, vols) ==>
          Written(r, Join(cs[6..]), max))
  }

  lemma FsOfOutcome(res: Resolution, max: nat, vols: Volumes)
    requires res.Resolved? && (res.resource.kind == Partition ==> res.resource.part >= 1)
    ensures Outcome(res.resource, FsOf(res, max, vols), vols)
    ensures Text(res.resource, res.canonical, FsOf(res, max, vols), max, vols)
  {
  }

  /**
   The outcome of `ns_to_fs_path` for an address, by kind.  A partition is a file path exactly if it is listed
   and starts where the mounted volume does; directories and devices never are.
   */
  lemma FsOutcome(input: string, max: nat, vols: Volumes)
    requires Addressed(input) && max > 0
    ensures var res, r := Resolve(input, vols.owner), FsPath(input, max, vols);
      && (res.Resolved? <==> Canonical(input, MAX_PATH).Some?)
      && if res.Resolved? then Outcome(res.resource, r, vols) && Text(res.resource, res.canonical, r, max, vols)
         else r == ParseError
  {
    if Canonical(input, MAX_PATH).Some? {
      ResolvesByTable(input, vols.owner);
      if Resolve(input, vols.owner).resource.kind == Partition {
        ResolvedNumber(input, vols.owner);
      }
      FsOfOutcome(Resolve(input, vols.owner), max, vols);
    }
  }
}
