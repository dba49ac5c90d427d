/** Safe materialisation of a capsule's payloads (src/extraction.rs). */
module Extraction {
  import opened Basics
  import opened Paths

  datatype Payload = Payload(path: string, bytes: string)

  datatype Limits = Limits(maxFiles: u64, maxTotalBytes: u64)

  datatype Summary = Summary(destination: Path, entrypoint: Path, fileCount: nat, totalBytes: nat)

  datatype Preflighted = Preflighted(fileCount: nat, totalBytes: nat)

  datatype ExtractionError =
    | TooManyFiles(actual: nat, limit: nat)
    | TooManyBytes(actualBytes: nat, byteLimit: nat)
    | SizeOverflow
    | InvalidPath(path: string)
    | DuplicatePath(duplicate: string)
    | ConflictingPaths(file: string, descendant: string)
    | InvalidDestination
    | DestinationExists
    | Io

  // ---- Preflight -------------------------------------------------------------------------

  function TotalBytes(payloads: seq<Payload>): nat {
    if payloads == [] then 0 else TotalBytes(payloads[..|payloads| - 1]) + |payloads[|payloads| - 1].bytes|
  }

  lemma {:induction false} TotalBytesMonotone(payloads: seq<Payload>, n: nat)
    requires n <= |payloads|
    ensures TotalBytes(payloads[..n]) <= TotalBytes(payloads)
  {
    if n < |payloads| {
      var shorter := payloads[..|payloads| - 1];
      assert shorter[..n] == payloads[..n];
      TotalBytesMonotone(shorter, n);
    } else {
      assert payloads[..n] == payloads;
    }
  }

  lemma TotalBytesStep(payloads: seq<Payload>, i: nat)
    requires i < |payloads|
    ensures TotalBytes(payloads[..i + 1]) == TotalBytes(payloads[..i]) + |payloads[i].bytes|
  {
    assert payloads[..i + 1][..i] == payloads[..i];
  }

  ghost predicate AllPortable(payloads: seq<Payload>) {
    forall i :: 0 <= i < |payloads| ==> PortablePath(payloads[i].path).Some?
  }

  ghost predicate DistinctPaths(payloads: seq<Payload>) {
    forall i, j :: 0 <= i < j < |payloads| ==> payloads[i].path != payloads[j].path
  }

  /** The first path's components are a proper prefix of the second's. */
  predicate Ancestor(file: string, descendant: string) {
    Split(file) < Split(descendant)
  }

  ghost predicate NoAncestors(payloads: seq<Payload>) {
    forall i, j :: 0 <= i < |payloads| && 0 <= j < |payloads| ==> !Ancestor(payloads[i].path, payloads[j].path)
  }

  /** What the preflight establishes about the paths. */
  ghost predicate Materializable(payloads: seq<Payload>) {
    AllPortable(payloads) && DistinctPaths(payloads) && NoAncestors(payloads)
  }

  /** A failed preflight names a real defect of the capsule. */
  ghost predicate Genuine(payloads: seq<Payload>, limits: Limits, e: ExtractionError) {
    match e
    case TooManyFiles(actual, limit) => actual == |payloads| && limit == limits.maxFiles && actual > limit
    case TooManyBytes(actual, limit) => actual == TotalBytes(payloads) && limit == limits.maxTotalBytes && actual > limit
    case SizeOverflow => TotalBytes(payloads) > U64_MAX
    case InvalidPath(path) => PortablePath(path).None? && exists p :: p in payloads && p.path == path
    case DuplicatePath(path) => exists i, j :: 0 <= i < j < |payloads| && payloads[i].path == path && payloads[j].path == path
    case ConflictingPaths(file, descendant) =>
      && Ancestor(file, descendant)
      && (exists p :: p in payloads && p.path == file)
      && (exists p :: p in payloads && p.path == descendant)
    case _ => false
  }

  method Preflight(payloads: seq<Payload>, limits: Limits) returns (r: Result<Preflighted, ExtractionError>)
    ensures r.Ok? <==>
            && |payloads| <= limits.maxFiles
            && TotalBytes(payloads) <= limits.maxTotalBytes
            && Materializable(payloads)
    ensures r.Ok? ==> r.value == Preflighted(|payloads|, TotalBytes(payloads))
    ensures r.Err? ==> Genuine(payloads, limits, r.error)
  {
    if |payloads| > limits.maxFiles {
      return Err(TooManyFiles(|payloads|, limits.maxFiles));
    }
    var collected := CollectPaths(payloads, limits);
    if collected.Err? {
      return Err(collected.error);
    }
    var (total, paths) := collected.value;
    if total > limits.maxTotalBytes {
      return Err(TooManyBytes(total, limits.maxTotalBytes));
    }
    var conflict := FindConflict(paths);
    if conflict.Some? {
      return Err(ConflictingPaths(conflict.value.0, conflict.value.1));
    }
    forall i, j | 0 <= i < |payloads| && 0 <= j < |payloads|
      ensures !Ancestor(payloads[i].path, payloads[j].path)
    {
      assert payloads[i] in payloads && payloads[j] in payloads;
    }
    return Ok(Preflighted(|payloads|, total));
  }

  /** The loop that checks each path and adds up the sizes. */
  method CollectPaths(payloads: seq<Payload>, limits: Limits) returns (r: Result<(nat, set<string>), ExtractionError>)
    ensures r.Ok? ==>
              && AllPortable(payloads) && DistinctPaths(payloads) && TotalBytes(payloads) <= U64_MAX
              && r.value.0 == TotalBytes(payloads)
              && r.value.1 == PathSet(payloads)
    ensures r.Err? ==> Genuine(payloads, limits, r.error)
  {
    var total := 0;
    var paths: set<string> := {};
    for i := 0 to |payloads|
      invariant total == TotalBytes(payloads[..i]) <= U64_MAX
      invariant AllPortable(payloads[..i]) && DistinctPaths(payloads[..i])
      invariant paths == PathSet(payloads[..i])
    {
      var p := payloads[i];
      var portable := PortablePath(p.path);
      if portable.None? {
        GenuineInvalid(payloads, limits, i);
        return Err(InvalidPath(p.path));
      }
      TotalBytesStep(payloads, i);
      if total + |p.bytes| > U64_MAX {
        GenuineOverflow(payloads, limits, i + 1);
        return Err(SizeOverflow);
      }
      total := total + |p.bytes|;
      if p.path in paths {
        GenuineDuplicate(payloads, limits, i);
        return Err(DuplicatePath(p.path));
      }
      PathSetStep(payloads, i);
      paths := paths + {p.path};
    }
    assert payloads[..|payloads|] == payloads;
    return Ok((total, paths));
  }

  lemma GenuineInvalid(payloads: seq<Payload>, limits: Limits, i: nat)
    requires i < |payloads| && PortablePath(payloads[i].path).None?
    ensures Genuine(payloads, limits, InvalidPath(payloads[i].path))
  {
    assert payloads[i] in payloads;
  }

  lemma GenuineOverflow(payloads: seq<Payload>, limits: Limits, n: nat)
    requires n <= |payloads| && TotalBytes(payloads[..n]) > U64_MAX
    ensures Genuine(payloads, limits, SizeOverflow)
  {
    TotalBytesMonotone(payloads, n);
  }

  lemma GenuineDuplicate(payloads: seq<Payload>, limits: Limits, i: nat)
    requires i < |payloads| && payloads[i].path in PathSet(payloads[..i])
    ensures Genuine(payloads, limits, DuplicatePath(payloads[i].path))
  {
    var p :| p in payloads[..i] && p.path == payloads[i].path;
    var j :| 0 <= j < i && payloads[j] == p;
  }

  function PathSet(payloads: seq<Payload>): set<string> {
    set p | p in payloads :: p.path
  }

  /** One more path that the growing set does not hold yet. */
  lemma PathSetStep(payloads: seq<Payload>, i: nat)
    requires i < |payloads| && AllPortable(payloads[..i]) && DistinctPaths(payloads[..i])
    requires PortablePath(payloads[i].path).Some? && payloads[i].path !in PathSet(payloads[..i])
    ensures PathSet(payloads[..i + 1]) == PathSet(payloads[..i]) + {payloads[i].path}
    ensures AllPortable(payloads[..i + 1]) && DistinctPaths(payloads[..i + 1])
  {
    assert payloads[..i + 1] == payloads[..i] + [payloads[i]];
    assert forall p :: p in payloads[..i] ==> p.path in PathSet(payloads[..i]);
  }

  /** The scan for a file that is an ancestor of another: for each path, grow a string prefix
      component by component and look it up. */
  method FindConflict(paths: set<string>) returns (conflict: Option<(string, string)>)
    requires forall p :: p in paths ==> PortablePath(p).Some?
    ensures conflict.None? <==> forall p, q :: p in paths && q in paths ==> !Ancestor(p, q)
    ensures conflict.Some? ==>
              && conflict.value.0 in paths && conflict.value.1 in paths
              && Ancestor(conflict.value.0, conflict.value.1)
  {
    var remaining := paths;
    while remaining != {}
      invariant remaining <= paths
      invariant forall p, q :: p in paths && q in paths - remaining ==> !Ancestor(p, q)
    {
      var path :| path in remaining;
      var components := Split(path);
      var prefix := "";
      for k := 0 to |components| - 1
        invariant k == 0 ==> prefix == ""
        invariant k > 0 ==> prefix != "" && prefix == Join(components[..k])
        invariant forall m :: 1 <= m <= k ==> Join(components[..m]) !in paths
      {
        assert components[k] in components;
        assert components[..k + 1] == components[..k] + [components[k]];
        if prefix != "" {
          JoinAppend(components[..k], components[k]);
          prefix := prefix + "/";
        }
        prefix := prefix + components[k];
        assert prefix == Join(components[..k + 1]);
        if prefix in paths {
          SplitJoin(components[..k + 1]);
          assert Split(prefix) == components[..k + 1];
          assert components[..k + 1] < components;
          return Some((prefix, path));
        }
      }
      forall p | p in paths
        ensures !Ancestor(p, path)
      {
        JoinSplit(p);
        TakePrefix(Split(p), components);
      }
      remaining := remaining - {path};
    }
    return None;
  }

  lemma TakePrefix(a: seq<string>, b: seq<string>)
    ensures a < b ==> |a| < |b| && b[..|a|] == a
  {
  }

  // ---- A file system ---------------------------------------------------------------------

  /** Absolute paths, as component sequences. */
  type Path = seq<string>

  datatype Node = Dir | File(bytes: string)

  type Tree = map<Path, Node>

  /** Every node but the root lies in a directory. */
  ghost predicate WellFormed(nodes: Tree) {
    && [] in nodes && nodes[[]] == Dir
    && forall p :: p in nodes && p != [] ==> p[..|p| - 1] in nodes && nodes[p[..|p| - 1]] == Dir
  }

  lemma {:induction false} AncestorsAreDirs(nodes: Tree, p: Path, k: nat)
    requires WellFormed(nodes) && p in nodes && k < |p|
    ensures p[..k] in nodes && nodes[p[..k]] == Dir
    decreases |p|
  {
    if k < |p| - 1 {
      AncestorsAreDirs(nodes, p[..|p| - 1], k);
      assert p[..|p| - 1][..k] == p[..k];
    }
  }

  /** `p` and all its ancestors. */
  function Prefixes(p: Path): (s: set<Path>)
    ensures forall q :: q in s <==> q <= p
  {
    var s := set k | 0 <= k <= |p| :: p[..k];
    assert forall q :: q <= p ==> q == p[..|q|];
    s
  }

  /** Some prefix of `p` is a file. */
  predicate Blocked(nodes: Tree, p: Path) {
    exists q :: q in Prefixes(p) && q in nodes && nodes[q].File?
  }

  /** The tree with directories at `p` and its missing ancestors. */
  function WithDirs(nodes: Tree, p: Path): Tree {
    nodes + (map q | q in Prefixes(p) && q !in nodes :: Dir)
  }

  class FileSystem {
    var nodes: Tree

    constructor (nodes: Tree)
      ensures this.nodes == nodes
    {
      this.nodes := nodes;
    }

    /** `create_dir_all`. */
    method CreateDirAll(p: Path) returns (ok: bool)
      modifies this
      ensures ok == !Blocked(old(nodes), p)
      ensures nodes == if ok then WithDirs(old(nodes), p) else old(nodes)
    {
      if Blocked(nodes, p) {
        return false;
      }
      for k := 0 to |p| + 1
        invariant forall q :: q in nodes <==> q in old(nodes) || (q <= p && |q| < k)
        invariant forall q :: q in nodes ==> nodes[q] == if q in old(nodes) then old(nodes)[q] else Dir
      {
        assert forall q :: q <= p && |q| == k ==> q == p[..k];
        if p[..k] !in nodes {
          nodes := nodes[p[..k] := Dir];
        }
      }
      assert nodes == WithDirs(old(nodes), p);
      return true;
    }

    /** Opening a new file with `create_new` and writing it. */
    method CreateNew(p: Path, bytes: string) returns (ok: bool)
      requires p != []
      modifies this
      ensures ok == CanCreate(old(nodes), p)
      ensures nodes == if ok then old(nodes)[p := File(bytes)] else old(nodes)
    {
      if !CanCreate(nodes, p) {
        return false;
      }
      nodes := nodes[p := File(bytes)];
      return true;
    }

    /** `renameat` with NOREPLACE: move a directory and everything below it. */
    method RenameNoReplace(source: Path, destination: Path) returns (ok: bool)
      modifies this
      ensures ok == (destination !in old(nodes))
      ensures nodes == if ok then Moved(old(nodes), source, destination) else old(nodes)
    {
      if destination in nodes {
        return false;
      }
      nodes := Moved(nodes, source, destination);
      return true;
    }

    /** Dropping a `TempDir`: remove the directory and everything below it. */
    method RemoveTree(p: Path)
      modifies this
      ensures nodes == Without(old(nodes), p)
    {
      nodes := Without(nodes, p);
    }

    /** The loop of `extract_capsule` over the payloads. */
    method WritePayloads(base: Path, payloads: seq<Payload>) returns (ok: bool)
      modifies this
      ensures ok == WriteAll(old(nodes), base, payloads).Some?
      ensures ok ==> nodes == WriteAll(old(nodes), base, payloads).value
    {
      for i := 0 to |payloads|
        invariant WriteAll(old(nodes), base, payloads[..i]) == Some(nodes)
      {
        var p := payloads[i];
        assert payloads[..i + 1][..i] == payloads[..i];
        ghost var next := WriteAll(old(nodes), base, payloads[..i + 1]);
        assert next == WriteOne(nodes, base, p);
        var relative := PortablePath(p.path);
        if relative.None? {
          WriteAllStops(old(nodes), base, payloads, i + 1);
          return false;
        }
        var target := base + relative.value;
        var made := CreateDirAll(Parent(target));
        if !made {
          WriteAllStops(old(nodes), base, payloads, i + 1);
          return false;
        }
        var created := CreateNew(target, p.bytes);
        if !created {
          WriteAllStops(old(nodes), base, payloads, i + 1);
          return false;
        }
      }
      assert payloads[..|payloads|] == payloads;
      return true;
    }

    /** `extract_capsule`. `stagingName` is the unused name `tempfile` picks; `early` and `late` are
        what another process may create at the destination while the payloads are written, and
        between the last check and the final rename. */
    method Extract(payloads: seq<Payload>, entrypoint: string, destination: Path, limits: Limits,
                   stagingName: string, early: Option<Node>, late: Option<Node>)
      returns (r: Result<Summary, ExtractionError>)
      requires WellFormed(nodes)
      requires destination != [] ==> Parent(destination) + [stagingName] !in nodes
      modifies this
      // The payload tree is published, or the error is reported and nothing of it remains.
      ensures r.Ok? <==>
              && Publishes(old(nodes), payloads, destination, limits, stagingName)
              && early.None? && late.None?
              && PortablePath(entrypoint).Some?
      ensures r.Ok? ==>
                && nodes == old(nodes) + Materialized(destination, payloads)
                && r.value == Summary(destination, destination + Split(entrypoint), |payloads|, TotalBytes(payloads))
      ensures r.Err? ==>
                || nodes == Intruded(old(nodes), destination, early)
                || nodes == Intruded(old(nodes), destination, late)
                || nodes == old(nodes)
                || (PortablePath(entrypoint).None? && nodes == old(nodes) + Materialized(destination, payloads))
      ensures r.Err? && destination in old(nodes) ==> nodes == old(nodes)
    {
      var preflight := Preflight(payloads, limits);
      if preflight.Err? {
        return Err(preflight.error);
      }
      if destination == [] {
        return Err(InvalidDestination);
      }
      if destination in nodes {
        return Err(DestinationExists);
      }
      var parent := Parent(destination);
      if parent !in nodes || nodes[parent] != Dir {
        return Err(Io);
      }
      var staging := parent + [stagingName];
      nodes := nodes[staging := Dir];
      FreshStaging(old(nodes), staging);
      PreflightExact(nodes, staging, payloads);
      HoldsMap(WriteAll(nodes, staging, payloads).value, nodes, staging, payloads);
      var written := WritePayloads(staging, payloads);
      assert written;
      var published := Publish(old(nodes), payloads, staging, destination, early, late);
      if published.Err? {
        return Err(published.error);
      }
      var relative := PortablePath(entrypoint);
      if relative.None? {
        return Err(InvalidPath(entrypoint));
      }
      return Ok(Summary(destination, destination + relative.value, preflight.value.fileCount, preflight.value.totalBytes));
    }

    /** The last part of `extract_capsule`: check the destination again, rename the staging
        directory, and remove it if that fails. */
    method Publish(ghost before: Tree, payloads: seq<Payload>, staging: Path, destination: Path,
                   early: Option<Node>, late: Option<Node>)
      returns (r: Result<(), ExtractionError>)
      requires WellFormed(before) && AllPortable(payloads)
      requires staging !in before && EmptyDir(before[staging := Dir], staging)
      requires destination !in before && |destination| == |staging|
      requires nodes == before[staging := Dir] + Materialized(staging, payloads)
      modifies this
      ensures r.Ok? <==> staging != destination && early.None? && late.None?
      ensures r.Ok? ==> nodes == before + Materialized(destination, payloads)
      ensures r.Err? ==>
                || nodes == Intruded(before, destination, early)
                || nodes == Intruded(before, destination, late)
                || nodes == before
      ensures r.Err? ==> r.error == DestinationExists || r.error == Io
    {
      if staging != destination {
        MovedTree(before, staging, destination, payloads);
        WithoutStaging(before, staging, destination, payloads, early);
        WithoutStaging(before, staging, destination, payloads, late);
      } else {
        RemoveStaging(before, staging, payloads);
      }
      Intrude(destination, early);
      if destination in nodes {
        RemoveTree(staging);
        return Err(DestinationExists);
      }
      Intrude(destination, late);
      var renamed := RenameNoReplace(staging, destination);
      if !renamed {
        RemoveTree(staging);
        return Err(Io);
      }
      return Ok(());
    }

    /** Another process creates something at a free path. */
    method Intrude(p: Path, node: Option<Node>)
      modifies this
      ensures nodes == Intruded(old(nodes), p, node)
    {
      nodes := Intruded(nodes, p, node);
    }
  }

  function Parent(p: Path): Path
    requires p != []
  {
    p[..|p| - 1]
  }

  predicate CanCreate(nodes: Tree, p: Path)
    requires p != []
  {
    p !in nodes && Parent(p) in nodes && nodes[Parent(p)] == Dir
  }

  function Without(nodes: Tree, p: Path): Tree {
    map q | q in nodes && !(p <= q) :: nodes[q]
  }

  function Below(nodes: Tree, p: Path): set<Path> {
    set q | q in nodes && p <= q
  }

  function Moved(nodes: Tree, source: Path, destination: Path): Tree {
    Without(nodes, source)
    + (map q | q in (set s | s in Below(nodes, source) :: destination + s[|source|..]) && destination <= q
                 && source + q[|destination|..] in nodes
       :: nodes[source + q[|destination|..]])
  }

  function Intruded(nodes: Tree, p: Path, node: Option<Node>): Tree {
    if node.Some? && p !in nodes then nodes[p := node.value] else nodes
  }

  // ---- Materialisation -------------------------------------------------------------------

  /** One step of the loop: the payload's directories, then the payload. */
  function WriteOne(nodes: Tree, base: Path, p: Payload): Option<Tree> {
    var relative :- PortablePath(p.path);
    WriteFile(nodes, base + relative, p.bytes)
  }

  function WriteFile(nodes: Tree, target: Path, bytes: string): Option<Tree>
    requires target != []
  {
    if Blocked(nodes, Parent(target)) then None
    else
      var made := WithDirs(nodes, Parent(target));
      if CanCreate(made, target) then Some(made[target := File(bytes)]) else None
  }

  function WriteAll(nodes: Tree, base: Path, payloads: seq<Payload>): Option<Tree> {
    if payloads == [] then Some(nodes)
    else
      var before :- WriteAll(nodes, base, payloads[..|payloads| - 1]);
      WriteOne(before, base, payloads[|payloads| - 1])
  }

  /** The payload stored at a relative path. */
  function FileAt(payloads: seq<Payload>, relative: Path): Option<string> {
    if payloads == [] then None
    else if Split(payloads[|payloads| - 1].path) == relative then Some(payloads[|payloads| - 1].bytes)
    else FileAt(payloads[..|payloads| - 1], relative)
  }

  /** The payload paths and all their ancestors, relative to the top directory. */
  function RelativePaths(payloads: seq<Payload>): set<Path> {
    if payloads == [] then {[]}
    else RelativePaths(payloads[..|payloads| - 1]) + Prefixes(Split(payloads[|payloads| - 1].path))
  }

  function NodeAt(payloads: seq<Payload>, relative: Path): Node {
    var file := FileAt(payloads, relative);
    if file.Some? then File(file.value) else Dir
  }

  /** Exactly the payloads as files and their proper ancestors as directories, below `base`. */
  function Materialized(base: Path, payloads: seq<Payload>): Tree {
    map q | q in (set r | r in RelativePaths(payloads) :: base + r) && base <= q :: NodeAt(payloads, q[|base|..])
  }

  // ---- The loop builds exactly the tree, whenever the preflight's path checks pass -----------

  ghost predicate HasFile(payloads: seq<Payload>, relative: Path) {
    exists p :: p in payloads && Split(p.path) == relative
  }

  ghost predicate Covers(payloads: seq<Payload>, relative: Path) {
    relative == [] || exists p :: p in payloads && relative <= Split(p.path)
  }

  lemma {:induction false} FileAtIff(payloads: seq<Payload>, relative: Path)
    ensures FileAt(payloads, relative).Some? <==> HasFile(payloads, relative)
  {
    if payloads != [] {
      var n := |payloads| - 1;
      assert payloads == payloads[..n] + [payloads[n]];
      FileAtIff(payloads[..n], relative);
    }
  }

  lemma {:induction false} RelativePathsIff(payloads: seq<Payload>, relative: Path)
    ensures relative in RelativePaths(payloads) <==> Covers(payloads, relative)
  {
    if payloads != [] {
      var n := |payloads| - 1;
      assert payloads == payloads[..n] + [payloads[n]];
      RelativePathsIff(payloads[..n], relative);
    }
  }

  /** A place for a new private directory: an existing directory with nothing in it. */
  ghost predicate EmptyDir(nodes: Tree, base: Path) {
    && WellFormed(nodes)
    && base in nodes && nodes[base] == Dir
    && forall q :: q in nodes && base <= q ==> q == base
  }

  /** The tree after materialising some payloads below `base`: the old nodes, and below `base`
      exactly the payloads as files and their proper ancestors as directories. */
  ghost predicate Holds(t: Tree, nodes: Tree, base: Path, payloads: seq<Payload>) {
    && (forall q :: q in nodes ==> q in t && t[q] == nodes[q])
    && (forall q :: q in t ==> q in nodes || base <= q)
    && (forall r: Path :: base + r in t <==> Covers(payloads, r))
    && (forall r: Path :: r != [] && base + r in t ==> t[base + r] == NodeAt(payloads, r))
  }

  /** Neither path is a prefix of the other. */
  ghost predicate Unrelated(a: Path, b: Path) {
    !(a <= b) && !(b <= a)
  }

  ghost predicate UnrelatedToAll(payloads: seq<Payload>, relative: Path) {
    forall p :: p in payloads ==> Unrelated(Split(p.path), relative)
  }

  lemma AppendPrefix(base: Path, a: Path, b: Path)
    ensures base + a <= base + b <==> a <= b
  {
    if base + a <= base + b {
      assert a == (base + a)[|base|..] == (base + b)[|base|..][..|a|] == b[..|a|];
    }
    if a <= b {
      assert base + b == base + a + b[|a|..];
    }
  }

  /** A prefix of a path below `base` is an ancestor of `base`, or lies below it too. */
  lemma PrefixCases(q: Path, base: Path, b: Path) returns (r: Path)
    requires q <= base + b
    ensures q <= base || (q == base + r && r != [] && r <= b)
  {
    r := [];
    if |q| > |base| {
      r := b[..|q| - |base|];
      assert q == (base + b)[..|q|] == base + r;
    } else {
      assert q == (base + b)[..|q|] == base[..|q|];
    }
  }

  /** Ancestors of the empty directory are directories. */
  lemma BaseAncestor(nodes: Tree, base: Path, q: Path)
    requires EmptyDir(nodes, base) && q <= base
    ensures q in nodes && nodes[q] == Dir
  {
    assert q == base[..|q|];
    if |q| == |base| {
      assert q == base;
    } else {
      AncestorsAreDirs(nodes, base, |q|);
    }
  }

  lemma UpPrefix(r: Path, relative: Path)
    requires relative != []
    ensures r <= relative[..|relative| - 1] <==> r < relative
  {
    if r < relative {
      assert r == relative[..|r|] == relative[..|relative| - 1][..|r|];
    }
    if r <= relative[..|relative| - 1] {
      assert r == relative[..|relative| - 1][..|r|] == relative[..|r|];
    }
  }

  ghost predicate HasAncestor(payloads: seq<Payload>, relative: Path) {
    exists p :: p in payloads && Split(p.path) < relative
  }

  /** The parent directories are free of files exactly when no earlier payload is an ancestor. */
  lemma BlockedOnlyIf(t: Tree, nodes: Tree, base: Path, payloads: seq<Payload>, relative: Path)
    requires EmptyDir(nodes, base) && Holds(t, nodes, base, payloads) && relative != []
    requires Blocked(t, base + relative[..|relative| - 1])
    ensures HasAncestor(payloads, relative)
  {
    var up := relative[..|relative| - 1];
    var q :| q in Prefixes(base + up) && q in t && t[q].File?;
    var r := PrefixCases(q, base, up);
    if q <= base {
      BaseAncestor(nodes, base, q);
    } else {
      FileAtIff(payloads, r);
      var p :| p in payloads && Split(p.path) == r;
      UpPrefix(r, relative);
    }
  }

  lemma BlockedIfAncestor(t: Tree, nodes: Tree, base: Path, payloads: seq<Payload>, relative: Path)
    requires EmptyDir(nodes, base) && Holds(t, nodes, base, payloads) && relative != []
    requires HasAncestor(payloads, relative)
    ensures Blocked(t, base + relative[..|relative| - 1])
  {
    var up := relative[..|relative| - 1];
    var p :| p in payloads && Split(p.path) < relative;
    var r := Split(p.path);
    UpPrefix(r, relative);
    AppendPrefix(base, r, up);
    FileAtIff(payloads, r);
    assert Covers(payloads, r);
    assert base + r in t && t[base + r].File?;
    assert base + r in Prefixes(base + up);
  }

  lemma WithDirsAt(t: Tree, p: Path, q: Path)
    ensures q in WithDirs(t, p) <==> q in t || q <= p
    ensures q in WithDirs(t, p) ==> WithDirs(t, p)[q] == if q in t then t[q] else Dir
  {
  }

  lemma UnblockedDir(t: Tree, p: Path)
    requires !Blocked(t, p)
    ensures p in WithDirs(t, p) && WithDirs(t, p)[p] == Dir
  {
    assert p in Prefixes(p);
    WithDirsAt(t, p, p);
  }

  lemma WriteFileShape(t: Tree, target: Path, bytes: string)
    requires target != []
    ensures WriteFile(t, target, bytes).Some? <==> !Blocked(t, Parent(target)) && target !in t
    ensures WriteFile(t, target, bytes).Some? ==>
              WriteFile(t, target, bytes).value == WithDirs(t, Parent(target))[target := File(bytes)]
  {
    if !Blocked(t, Parent(target)) {
      UnblockedDir(t, Parent(target));
      WithDirsAt(t, Parent(target), target);
      assert |target| > |Parent(target)|;
    }
  }

  lemma ParentBelow(base: Path, relative: Path)
    requires relative != []
    ensures base + relative != [] && Parent(base + relative) == base + relative[..|relative| - 1]
  {
  }

  /** What one step does, in terms of the relative path. */
  lemma WriteOneShape(t: Tree, base: Path, p: Payload)
    requires PortablePath(p.path).Some?
    ensures var relative := Split(p.path);
            var parent := base + relative[..|relative| - 1];
            && (WriteOne(t, base, p).Some? <==> !Blocked(t, parent) && base + relative !in t)
            && (WriteOne(t, base, p).Some? ==>
                  WriteOne(t, base, p).value == WithDirs(t, parent)[base + relative := File(p.bytes)])
  {
    ParentBelow(base, Split(p.path));
    WriteFileShape(t, base + Split(p.path), p.bytes);
  }

  /** One step succeeds exactly on a path unrelated to the earlier ones. */
  lemma WriteOneIff(t: Tree, nodes: Tree, base: Path, payloads: seq<Payload>, p: Payload)
    requires EmptyDir(nodes, base) && Holds(t, nodes, base, payloads)
    requires PortablePath(p.path).Some?
    ensures WriteOne(t, base, p).Some? <==> UnrelatedToAll(payloads, Split(p.path))
  {
    var relative := Split(p.path);
    WriteOneShape(t, base, p);
    if Blocked(t, base + relative[..|relative| - 1]) {
      BlockedOnlyIf(t, nodes, base, payloads, relative);
    }
    if HasAncestor(payloads, relative) {
      BlockedIfAncestor(t, nodes, base, payloads, relative);
    }
    assert base + relative in t <==> Covers(payloads, relative);
    assert UnrelatedToAll(payloads, relative) <==> !HasAncestor(payloads, relative) && !Covers(payloads, relative);
  }

  /** One successful step adds its payload and the missing directories, and nothing else. */
  lemma WriteOneHolds(t: Tree, nodes: Tree, base: Path, payloads: seq<Payload>, p: Payload)
    requires EmptyDir(nodes, base) && Holds(t, nodes, base, payloads)
    requires PortablePath(p.path).Some? && WriteOne(t, base, p).Some?
    ensures Holds(WriteOne(t, base, p).value, nodes, base, payloads + [p])
  {
    var relative := Split(p.path);
    var up := relative[..|relative| - 1];
    var after := WriteOne(t, base, p).value;
    WriteOneShape(t, base, p);
    forall q | q in after
      ensures q in nodes || base <= q
    {
      if q !in t && q != base + relative {
        var _ := PrefixCases(q, base, up);
        if q <= base {
          BaseAncestor(nodes, base, q);
        }
      }
    }
    forall r: Path {
      WriteOneAt(t, nodes, base, payloads, p, r);
    }
  }

  /** The same at one relative path. */
  lemma WriteOneAt(t: Tree, nodes: Tree, base: Path, payloads: seq<Payload>, p: Payload, r: Path)
    requires EmptyDir(nodes, base) && Holds(t, nodes, base, payloads)
    requires PortablePath(p.path).Some? && WriteOne(t, base, p).Some?
    ensures var after := WriteOne(t, base, p).value;
            && (base + r in after <==> Covers(payloads + [p], r))
            && (r != [] && base + r in after ==> after[base + r] == NodeAt(payloads + [p], r))
  {
    var relative := Split(p.path);
    var up := relative[..|relative| - 1];
    WriteOneShape(t, base, p);
    WithDirsAt(t, base + up, base + r);
    CoversOneMore(payloads, p, r);
    AppendPrefix(base, r, up);
    UpPrefix(r, relative);
    NodeAtOneMore(payloads, p, r);
    if r != relative {
      assert base + r != base + relative by {
        assert (base + r)[|base|..] == r && (base + relative)[|base|..] == relative;
      }
    }
    assert r <= relative <==> r == relative || r < relative;
  }

  lemma NodeAtOneMore(payloads: seq<Payload>, p: Payload, r: Path)
    ensures NodeAt(payloads + [p], r) == if r == Split(p.path) then File(p.bytes) else NodeAt(payloads, r)
    ensures !Covers(payloads, r) ==> NodeAt(payloads, r) == Dir
  {
    assert (payloads + [p])[..|payloads|] == payloads;
    FileAtIff(payloads, r);
    if HasFile(payloads, r) {
      assert Covers(payloads, r);
    }
  }

  lemma CoversOneMore(payloads: seq<Payload>, p: Payload, relative: Path)
    ensures Covers(payloads + [p], relative) <==> Covers(payloads, relative) || relative <= Split(p.path)
  {
    var more := payloads + [p];
    if relative <= Split(p.path) {
      assert p in more;
    }
    if other :| other in payloads && relative <= Split(other.path) {
      assert other in more;
    }
  }

  /** No two payload paths are equal and none is an ancestor of another. */
  ghost predicate PairwiseUnrelated(payloads: seq<Payload>) {
    forall i, j :: 0 <= i < j < |payloads| ==> Unrelated(Split(payloads[i].path), Split(payloads[j].path))
  }

  /** For every payload list in every order, the create-directories/create-new loop in an empty
      directory completes exactly when the paths are pairwise unrelated, and then holds exactly
      the payloads. */
  lemma {:induction false} WriteAllIff(nodes: Tree, base: Path, payloads: seq<Payload>)
    requires EmptyDir(nodes, base) && AllPortable(payloads)
    ensures var t := WriteAll(nodes, base, payloads);
            && (t.Some? <==> PairwiseUnrelated(payloads))
            && (t.Some? ==> Holds(t.value, nodes, base, payloads))
  {
    if payloads != [] {
      var n := |payloads| - 1;
      var before, p := payloads[..n], payloads[n];
      assert payloads == before + [p];
      WriteAllIff(nodes, base, before);
      var t := WriteAll(nodes, base, before);
      if t.Some? {
        WriteOneIff(t.value, nodes, base, before, p);
        if WriteOne(t.value, base, p).Some? {
          WriteOneHolds(t.value, nodes, base, before, p);
        }
      }
      PairwiseUnrelatedStep(before, p);
    } else {
      forall r: Path
        ensures base + r in nodes <==> r == []
      {
        if base + r in nodes {
          assert base <= base + r;
        }
        assert r == [] ==> base + r == base;
      }
    }
  }

  lemma PairwiseUnrelatedStep(before: seq<Payload>, p: Payload)
    ensures PairwiseUnrelated(before + [p]) <==> PairwiseUnrelated(before) && UnrelatedToAll(before, Split(p.path))
  {
    var all := before + [p];
    if PairwiseUnrelated(all) {
      forall i, j | 0 <= i < j < |before|
        ensures Unrelated(Split(before[i].path), Split(before[j].path))
      {
        assert all[i] == before[i] && all[j] == before[j];
      }
      forall other | other in before
        ensures Unrelated(Split(other.path), Split(p.path))
      {
        var i :| 0 <= i < |before| && before[i] == other;
        assert all[i] == other && all[|before|] == p;
      }
    }
  }

  /** The preflight's path checks are exactly the condition under which the loop cannot fail. */
  lemma PreflightExact(nodes: Tree, base: Path, payloads: seq<Payload>)
    requires EmptyDir(nodes, base)
    ensures Materializable(payloads) <==> WriteAll(nodes, base, payloads).Some?
    ensures Materializable(payloads) ==> Holds(WriteAll(nodes, base, payloads).value, nodes, base, payloads)
  {
    WriteAllPortable(nodes, base, payloads);
    if AllPortable(payloads) {
      WriteAllIff(nodes, base, payloads);
      UnrelatedIffMaterializable(payloads);
    }
  }

  lemma NeedsPortable(p: Payload)
    ensures PortablePath(p.path).None? ==> forall t, base :: WriteOne(t, base, p).None?
  {
  }

  lemma {:induction false} WriteAllPortable(nodes: Tree, base: Path, payloads: seq<Payload>)
    ensures WriteAll(nodes, base, payloads).Some? ==> AllPortable(payloads)
  {
    if payloads != [] {
      var n := |payloads| - 1;
      WriteAllPortable(nodes, base, payloads[..n]);
      NeedsPortable(payloads[n]);
      assert forall i :: 0 <= i < n ==> payloads[..n][i] == payloads[i];
    }
  }

  lemma UnrelatedIffMaterializable(payloads: seq<Payload>)
    requires AllPortable(payloads)
    ensures PairwiseUnrelated(payloads) <==> Materializable(payloads)
  {
    if PairwiseUnrelated(payloads) {
      forall i, j | 0 <= i < |payloads| && 0 <= j < |payloads|
        ensures !Ancestor(payloads[i].path, payloads[j].path)
      {
        if i < j {
          assert Unrelated(Split(payloads[i].path), Split(payloads[j].path));
        } else if j < i {
          assert Unrelated(Split(payloads[j].path), Split(payloads[i].path));
        }
      }
    }
    if Materializable(payloads) {
      forall i, j | 0 <= i < j < |payloads|
        ensures Unrelated(Split(payloads[i].path), Split(payloads[j].path))
      {
        var a, b := payloads[i].path, payloads[j].path;
        assert !Ancestor(a, b) && !Ancestor(b, a);
        if Split(a) == Split(b) {
          PortableInjective(a, b);
        }
      }
    }
  }

  // ---- Publication -----------------------------------------------------------------------

  lemma {:induction false} WriteAllStops(nodes: Tree, base: Path, payloads: seq<Payload>, n: nat)
    requires n <= |payloads| && WriteAll(nodes, base, payloads[..n]).None?
    ensures WriteAll(nodes, base, payloads).None?
  {
    if n < |payloads| {
      var shorter := payloads[..|payloads| - 1];
      assert shorter[..n] == payloads[..n];
      WriteAllStops(nodes, base, shorter, n);
    } else {
      assert payloads[..n] == payloads;
    }
  }

  /** When the extraction gets as far as the final rename and nobody interferes. */
  ghost predicate Publishes(nodes: Tree, payloads: seq<Payload>, destination: Path, limits: Limits, stagingName: string) {
    && |payloads| <= limits.maxFiles && TotalBytes(payloads) <= limits.maxTotalBytes && Materializable(payloads)
    && destination != [] && destination !in nodes
    && Parent(destination) in nodes && nodes[Parent(destination)] == Dir
    && destination != Parent(destination) + [stagingName]
  }

  lemma FreshStaging(nodes: Tree, staging: Path)
    requires WellFormed(nodes) && staging != [] && staging !in nodes
    requires Parent(staging) in nodes && nodes[Parent(staging)] == Dir
    ensures EmptyDir(nodes[staging := Dir], staging)
  {
    forall q | q in nodes
      ensures !(staging <= q)
    {
      if staging <= q && staging != q {
        assert q[..|staging|] == staging;
        AncestorsAreDirs(nodes, q, |staging|);
      }
    }
  }

  /** The written tree, as the old tree and the materialised payloads. */
  lemma HoldsMap(t: Tree, nodes: Tree, base: Path, payloads: seq<Payload>)
    requires EmptyDir(nodes, base) && Holds(t, nodes, base, payloads)
    requires AllPortable(payloads)
    ensures t == nodes + Materialized(base, payloads)
  {
    var m := Materialized(base, payloads);
    forall r: Path
      ensures SameAt(t, m, base + r)
    {
      MaterializedAt(base, payloads, r);
      FileAtIff(payloads, r);
      assert r == [] ==> base + r == base;
    }
    forall q
      ensures SameAt(t, nodes + m, q)
    {
      if base <= q {
        assert q == base + q[|base|..];
      } else {
        NotMaterialized(base, payloads, q);
      }
    }
    SameTrees(t, nodes + m);
  }

  lemma MaterializedAt(base: Path, payloads: seq<Payload>, r: Path)
    ensures base + r in Materialized(base, payloads) <==> Covers(payloads, r)
    ensures base + r in Materialized(base, payloads) ==> Materialized(base, payloads)[base + r] == NodeAt(payloads, r)
  {
    RelativePathsIff(payloads, r);
    assert (base + r)[|base|..] == r;
    if base + r in Materialized(base, payloads) {
      var x :| x in RelativePaths(payloads) && base + x == base + r;
      assert x == (base + x)[|base|..];
    }
  }

  ghost predicate SameAt(a: Tree, b: Tree, q: Path) {
    (q in a <==> q in b) && (q in a ==> a[q] == b[q])
  }

  lemma SameTrees(a: Tree, b: Tree)
    requires forall q :: SameAt(a, b, q)
    ensures a == b
  {
    forall q
      ensures (q in a <==> q in b) && (q in a ==> a[q] == b[q])
    {
      assert SameAt(a, b, q);
    }
  }

  /** Removing the staging directory restores the old tree. */
  lemma RemoveStaging(nodes: Tree, staging: Path, payloads: seq<Payload>)
    requires WellFormed(nodes) && EmptyDir(nodes[staging := Dir], staging) && staging !in nodes
    ensures var t := nodes[staging := Dir] + Materialized(staging, payloads);
            staging in t && Without(t, staging) == nodes
  {
    MaterializedAt(staging, payloads, []);
    assert staging + [] == staging;
    var t := nodes[staging := Dir] + Materialized(staging, payloads);
    forall q
      ensures SameAt(Without(t, staging), nodes, q)
    {
      if staging <= q {
        NothingBelow(nodes, staging, q);
      } else {
        NotMaterialized(staging, payloads, q);
      }
    }
    SameTrees(Without(t, staging), nodes);
  }

  /** The same when something else appeared at the destination meanwhile. */
  lemma WithoutStaging(nodes: Tree, staging: Path, destination: Path, payloads: seq<Payload>, other: Option<Node>)
    requires WellFormed(nodes) && EmptyDir(nodes[staging := Dir], staging) && staging !in nodes
    requires |destination| == |staging| && destination != staging
    ensures var t := nodes[staging := Dir] + Materialized(staging, payloads);
            && (destination in t <==> destination in nodes)
            && Without(Intruded(t, destination, other), staging) == Intruded(nodes, destination, other)
  {
    RemoveStaging(nodes, staging, payloads);
    assert !(staging <= destination);
    assert forall q :: q in Materialized(staging, payloads) ==> staging <= q;
  }

  /** A node can be absent only together with everything below it. */
  lemma NothingBelow(nodes: Tree, p: Path, q: Path)
    requires WellFormed(nodes) && p !in nodes && p <= q
    ensures q !in nodes
  {
    if q in nodes && p != q {
      assert q[..|p|] == p;
      AncestorsAreDirs(nodes, q, |p|);
    }
  }

  /** Renaming the staging directory publishes exactly the payload tree at the destination. */
  lemma MovedTree(nodes: Tree, staging: Path, destination: Path, payloads: seq<Payload>)
    requires WellFormed(nodes) && EmptyDir(nodes[staging := Dir], staging) && staging !in nodes
    requires |destination| == |staging| && destination != staging && destination !in nodes
    ensures Moved(nodes[staging := Dir] + Materialized(staging, payloads), staging, destination)
         == nodes + Materialized(destination, payloads)
  {
    var moved := Moved(nodes[staging := Dir] + Materialized(staging, payloads), staging, destination);
    var goal := nodes + Materialized(destination, payloads);
    forall q
      ensures SameAt(moved, goal, q)
    {
      MovedTreeAnywhere(nodes, staging, destination, payloads, q);
    }
    SameTrees(moved, goal);
  }

  lemma MovedTreeAnywhere(nodes: Tree, staging: Path, destination: Path, payloads: seq<Payload>, q: Path)
    requires WellFormed(nodes) && EmptyDir(nodes[staging := Dir], staging) && staging !in nodes
    requires |destination| == |staging| && destination != staging && destination !in nodes
    ensures SameAt(Moved(nodes[staging := Dir] + Materialized(staging, payloads), staging, destination),
                   nodes + Materialized(destination, payloads), q)
  {
    if destination <= q {
      var r := q[|destination|..];
      assert q == destination + r;
      MovedTreeAt(nodes, staging, destination, payloads, r);
    } else {
      MovedElsewhere(nodes[staging := Dir] + Materialized(staging, payloads), staging, destination, q);
      RemoveStaging(nodes, staging, payloads);
      NotMaterialized(destination, payloads, q);
    }
  }

  lemma NotMaterialized(base: Path, payloads: seq<Payload>, q: Path)
    requires !(base <= q)
    ensures q !in Materialized(base, payloads)
  {
  }

  lemma MovedElsewhere(t: Tree, staging: Path, destination: Path, q: Path)
    requires !(destination <= q)
    ensures SameAt(Moved(t, staging, destination), Without(t, staging), q)
  {
  }

  lemma MovedTreeAt(nodes: Tree, staging: Path, destination: Path, payloads: seq<Payload>, r: Path)
    requires WellFormed(nodes) && EmptyDir(nodes[staging := Dir], staging) && staging !in nodes
    requires |destination| == |staging| && destination != staging && destination !in nodes
    ensures var moved := Moved(nodes[staging := Dir] + Materialized(staging, payloads), staging, destination);
            var goal := nodes + Materialized(destination, payloads);
            && (destination + r in moved <==> destination + r in goal)
            && (destination + r in moved ==> moved[destination + r] == goal[destination + r])
  {
    var t := nodes[staging := Dir] + Materialized(staging, payloads);
    MaterializedAt(staging, payloads, r);
    MaterializedAt(destination, payloads, r);
    MovedAt(t, staging, destination, r);
    NothingBelow(nodes, destination, destination + r);
    assert destination <= destination + r && staging <= staging + r;
    assert !(staging <= destination + r) by {
      assert (destination + r)[..|staging|] == destination;
    }
    assert staging + r in t <==> Covers(payloads, r) by {
      NothingBelow(nodes, staging, staging + r);
      assert staging + r == staging ==> r == [];
    }
    RemoveStaging(nodes, staging, payloads);
  }

  lemma MovedAt(t: Tree, staging: Path, destination: Path, r: Path)
    requires |destination| == |staging| && destination != staging
    ensures destination + r in Moved(t, staging, destination) <==> staging + r in t || destination + r in Without(t, staging)
    ensures staging + r in t ==> Moved(t, staging, destination)[destination + r] == t[staging + r]
    ensures staging + r !in t && destination + r in Without(t, staging) ==>
              Moved(t, staging, destination)[destination + r] == t[destination + r]
  {
    assert (destination + r)[|destination|..] == r;
    assert (staging + r)[|staging|..] == r;
    if staging + r in t {
      assert staging + r in Below(t, staging);
    }
  }

  /** Every payload, the entrypoint among them, is published with exactly its bytes. */
  lemma {:induction false} PublishedBytes(base: Path, payloads: seq<Payload>, p: Payload)
    requires Materializable(payloads) && p in payloads
    ensures var target := base + Split(p.path);
            target in Materialized(base, payloads) && Materialized(base, payloads)[target] == File(p.bytes)
  {
    MaterializedAt(base, payloads, Split(p.path));
    FileAtUnique(payloads, p);
  }

  lemma {:induction false} FileAtUnique(payloads: seq<Payload>, p: Payload)
    requires AllPortable(payloads) && DistinctPaths(payloads) && p in payloads
    ensures FileAt(payloads, Split(p.path)) == Some(p.bytes)
  {
    var n := |payloads| - 1;
    var last := payloads[n];
    if Split(last.path) == Split(p.path) {
      PortableInjective(last.path, p.path);
    } else {
      assert payloads == payloads[..n] + [last];
      FileAtUnique(payloads[..n], p);
    }
  }

  /** Nothing is written outside: below a directory that resolves to itself, so does every path of
      the published tree. */
  lemma TargetsResolve(base: Path, payloads: seq<Payload>, target: Path)
    requires Materializable(payloads) && Resolve([], base) == base && target in Materialized(base, payloads)
    ensures base <= target && Resolve([], target) == target
  {
    hide Materialized, Resolve, Ordinary;
    BelowBase(base, payloads, target);
    var r := target[|base|..];
    assert [] + base == base && [] + target == target;
    assert target == base + r;
    MaterializedAt(base, payloads, r);
    ComponentsOrdinary(payloads, r);
    ResolveIff([], base);
    OrdinaryAppend(base, r);
    ResolveIff([], target);
  }

  lemma BelowBase(base: Path, payloads: seq<Payload>, target: Path)
    requires target in Materialized(base, payloads)
    ensures base <= target
  {
  }

  /** What a portable payload's path consists of. */
  lemma ComponentsOrdinary(payloads: seq<Payload>, r: Path)
    requires AllPortable(payloads) && Covers(payloads, r)
    ensures Ordinary(r)
  {
    if r == [] {
      return;
    }
    var p :| p in payloads && r <= Split(p.path);
    var i :| 0 <= i < |payloads| && payloads[i] == p;
    assert PortablePath(payloads[i].path).Some?;
    assert forall c :: c in r ==> c in Split(p.path);
  }
}
