/** The files a study depends on: the closure of its start files under imports. */
module ImportClosure {

  /** A path is the list of its components. */
  type Path = seq<string>

  /** What the file system and the parser say: the import roots, the existing files and,
      for each file that parses, the dotted names it imports. */
  datatype Layout = Layout(roots: seq<Path>, files: set<Path>, imports: map<Path, seq<seq<string>>>)

  const INIT := "__init__.py"

  /** `module.py` or `module/__init__.py` below a root. */
  function AsFile(root: Path, parts: seq<string>): Path
    requires parts != []
  {
    root + parts[..|parts| - 1] + [parts[|parts| - 1] + ".py"]
  }

  function AsPackage(root: Path, parts: seq<string>): Path {
    root + parts + [INIT]
  }

  /** The existing `__init__.py` files of the enclosing packages. */
  function Parents(l: Layout, root: Path, parts: seq<string>, i: nat): seq<Path>
    requires 1 <= i <= |parts|
  {
    if i == 1 then []
    else
      var p := AsPackage(root, parts[..i - 1]);
      Parents(l, root, parts, i - 1) + if p in l.files then [p] else []
  }

  function FoundAt(l: Layout, root: Path, parts: seq<string>): seq<Path>
    requires parts != []
  {
    if AsFile(root, parts) in l.files then [AsFile(root, parts)]
    else if AsPackage(root, parts) in l.files then [AsPackage(root, parts)]
    else []
  }

  /** The first root that has the module wins. */
  function Resolved(l: Layout, roots: seq<Path>, parts: seq<string>): seq<Path>
    requires parts != []
  {
    if roots == [] then []
    else if FoundAt(l, roots[0], parts) != [] then FoundAt(l, roots[0], parts) + Parents(l, roots[0], parts, |parts|)
    else Resolved(l, roots[1..], parts)
  }

  method ModuleFiles(l: Layout, parts: seq<string>) returns (found: seq<Path>)
    requires parts != []
    ensures found == Resolved(l, l.roots, parts)
  {
    for k := 0 to |l.roots|
      invariant Resolved(l, l.roots, parts) == Resolved(l, l.roots[k..], parts)
    {
      var root := l.roots[k];
      assert l.roots[k..][0] == root && l.roots[k..][1..] == l.roots[k + 1..];
      var candidates := [AsFile(root, parts), AsPackage(root, parts)];
      for c := 0 to 2
        invariant forall n :: 0 <= n < c ==> candidates[n] !in l.files
      {
        if candidates[c] in l.files {
          assert FoundAt(l, root, parts) == [candidates[c]] by {
            assert c == 1 ==> candidates[0] !in l.files;
          }
          var parents := ParentFiles(l, root, parts);
          return [candidates[c]] + parents;
        }
      }
      assert candidates[0] !in l.files && candidates[1] !in l.files;
    }
    assert l.roots[|l.roots|..] == [];
    found := [];
  }

  method ParentFiles(l: Layout, root: Path, parts: seq<string>) returns (parents: seq<Path>)
    requires parts != []
    ensures parents == Parents(l, root, parts, |parts|)
  {
    parents := [];
    for i := 1 to |parts|
      invariant parents == Parents(l, root, parts, i)
    {
      var p := AsPackage(root, parts[..i]);
      if p in l.files {
        parents := parents + [p];
      }
    }
  }

  /** `root` has the module, as a file or else as a package, and `q` is it. */
  predicate IsModuleAt(l: Layout, root: Path, parts: seq<string>, q: Path)
    requires parts != []
  {
    var file := root + parts[..|parts| - 1] + [parts[|parts| - 1] + ".py"];
    var package := root + parts + ["__init__.py"];
    q in l.files && (q == file || (q == package && file !in l.files))
  }

  /** `q` marks an enclosing package of the module below `root`. */
  predicate IsParentAt(l: Layout, root: Path, parts: seq<string>, q: Path) {
    q in l.files && exists i :: 0 < i < |parts| && q == root + parts[..i] + ["__init__.py"]
  }

  /** Root `r` is the first that has the module. */
  ghost predicate FirstRoot(l: Layout, parts: seq<string>, r: nat)
    requires parts != []
  {
    && r < |l.roots| && (exists q :: IsModuleAt(l, l.roots[r], parts, q))
    && forall e, q :: 0 <= e < r ==> !IsModuleAt(l, l.roots[e], parts, q)
  }

  ghost predicate Answers(l: Layout, parts: seq<string>, r: nat, q: Path)
    requires parts != []
  {
    FirstRoot(l, parts, r) && (IsModuleAt(l, l.roots[r], parts, q) || IsParentAt(l, l.roots[r], parts, q))
  }

  /** What a dotted name resolves to: the module in the first root that has it and the
      existing `__init__.py` of every package around it. */
  lemma ResolvedIsModuleAndParents(l: Layout, parts: seq<string>, q: Path)
    requires parts != []
    ensures q in Resolved(l, l.roots, parts) <==>
      exists r: nat :: Answers(l, parts, r, q)
  {
    ResolvedFrom(l, parts, q, 0);
    assert l.roots[0..] == l.roots;
  }

  lemma ResolvedFrom(l: Layout, parts: seq<string>, q: Path, from: nat)
    requires parts != [] && from <= |l.roots|
    requires forall e, p :: 0 <= e < from ==> !IsModuleAt(l, l.roots[e], parts, p)
    ensures q in Resolved(l, l.roots[from..], parts) <==>
      exists r: nat :: Answers(l, parts, r, q)
    decreases |l.roots| - from
  {
    if from < |l.roots| {
      var root := l.roots[from];
      assert l.roots[from..][0] == root && l.roots[from..][1..] == l.roots[from + 1..];
      FoundIsModule(l, root, parts);
      ParentsAre(l, root, parts, |parts|, q);
      if FoundAt(l, root, parts) != [] {
        assert FoundAt(l, root, parts)[0] in FoundAt(l, root, parts);
        assert IsModuleAt(l, root, parts, FoundAt(l, root, parts)[0]);
        assert FirstRoot(l, parts, from);
        forall r: nat | FirstRoot(l, parts, r) ensures r == from {
          OnlyFirstRoot(l, parts, from, r);
        }
        assert q in Resolved(l, l.roots[from..], parts) <==> Answers(l, parts, from, q);
      } else {
        ResolvedFrom(l, parts, q, from + 1);
      }
    }
  }

  lemma OnlyFirstRoot(l: Layout, parts: seq<string>, r: nat, e: nat)
    requires parts != [] && FirstRoot(l, parts, r) && FirstRoot(l, parts, e)
    ensures r == e
  {
    var p :| IsModuleAt(l, l.roots[r], parts, p);
    var q :| IsModuleAt(l, l.roots[e], parts, q);
  }

  lemma FoundIsModule(l: Layout, root: Path, parts: seq<string>)
    requires parts != []
    ensures forall q :: q in FoundAt(l, root, parts) <==> IsModuleAt(l, root, parts, q)
  {
  }

  lemma {:induction false} ParentsAre(l: Layout, root: Path, parts: seq<string>, n: nat, q: Path)
    requires 1 <= n <= |parts|
    ensures q in Parents(l, root, parts, n) <==>
      q in l.files && exists i :: 0 < i < n && q == root + parts[..i] + ["__init__.py"]
  {
    if n > 1 {
      ParentsAre(l, root, parts, n - 1, q);
    }
  }

  predicate WellNamed(l: Layout) {
    forall p :: p in l.imports ==> forall i :: 0 <= i < |l.imports[p]| ==> l.imports[p][i] != []
  }

  /** The files a file imports, up to its `k`-th import. */
  function Imported(l: Layout, p: Path, k: nat): seq<Path>
    requires WellNamed(l) && p in l.imports && k <= |l.imports[p]|
  {
    if k == 0 then [] else Imported(l, p, k - 1) + Resolved(l, l.roots, l.imports[p][k - 1])
  }

  /** `p` imports `q`; a file that does not parse imports nothing. */
  predicate Edge(l: Layout, p: Path, q: Path)
    requires WellNamed(l)
  {
    p in l.imports && q in Imported(l, p, |l.imports[p]|)
  }

  /** `p` is an existing file `n` imports away from a start file. */
  ghost predicate Reached(l: Layout, start: seq<Path>, p: Path, n: nat)
    requires WellNamed(l)
    decreases n
  {
    p in l.files &&
    if n == 0 then p in start
    else exists q :: Reached(l, start, q, n - 1) && Edge(l, q, p)
  }

  ghost predicate Reachable(l: Layout, start: seq<Path>, p: Path)
    requires WellNamed(l)
  {
    exists n: nat :: Reached(l, start, p, n)
  }

  /** Terminates on every layout, cyclic imports included, with exactly the existing
      files reachable from the start files. Which entry of the worklist is taken next is
      left open; the last one, as by `pop`, is one choice. */
  method Closure(l: Layout, start: seq<Path>) returns (seen: set<Path>)
    requires WellNamed(l)
    ensures forall p :: p in seen <==> Reachable(l, start, p)
  {
    seen := {};
    var queue := start;
    forall p | p in start && p in l.files ensures Reachable(l, start, p) {
      assert Reached(l, start, p, 0);
    }
    while queue != []
      invariant seen <= l.files && Explored(l, seen, queue)
      invariant OnlyReachable(l, start, seen, queue) && HoldsStart(l, start, seen, queue)
      decreases |l.files - seen|, |queue|
    {
      var next :| 0 <= next < |queue|;
      var path := queue[next];
      ghost var rest := queue[..next] + queue[next + 1..];
      TakenOut(l, start, seen, queue, next);
      queue := queue[..next] + queue[next + 1..];
      if path in seen || path !in l.files {
        continue;
      }
      ghost var seenBefore := seen;
      seen := seen + {path};
      assert l.files - seenBefore == (l.files - seen) + {path};
      if path !in l.imports {
        continue;
      }
      queue := WithImports(l, path, queue);
      Expanded(l, start, seenBefore, rest, path);
    }
    forall p | Reachable(l, start, p) ensures p in seen {
      var n: nat :| Reached(l, start, p, n);
      ClosedUnderReach(l, start, seen, p, n);
    }
  }

  /** Taking an entry out and putting it last changes nothing that the loop maintains. */
  lemma TakenOut(l: Layout, start: seq<Path>, seen: set<Path>, queue: seq<Path>, next: nat)
    requires WellNamed(l) && next < |queue|
    requires Explored(l, seen, queue) && OnlyReachable(l, start, seen, queue) && HoldsStart(l, start, seen, queue)
    ensures var moved := queue[..next] + queue[next + 1..] + [queue[next]];
      Explored(l, seen, moved) && OnlyReachable(l, start, seen, moved) && HoldsStart(l, start, seen, moved)
  {
    var moved := queue[..next] + queue[next + 1..] + [queue[next]];
    assert queue == queue[..next] + [queue[next]] + queue[next + 1..];
    assert forall p :: p in queue <==> p in moved;
  }

  method WithImports(l: Layout, path: Path, queue: seq<Path>) returns (longer: seq<Path>)
    requires WellNamed(l) && path in l.imports
    ensures longer == queue + Imported(l, path, |l.imports[path]|)
  {
    longer := queue;
    for k := 0 to |l.imports[path]|
      invariant longer == queue + Imported(l, path, k)
    {
      var found := ModuleFiles(l, l.imports[path][k]);
      longer := longer + found;
    }
  }

  ghost predicate OnlyReachable(l: Layout, start: seq<Path>, seen: set<Path>, queue: seq<Path>)
    requires WellNamed(l)
  {
    && (forall p :: p in seen ==> Reachable(l, start, p))
    && (forall p :: p in queue && p in l.files ==> Reachable(l, start, p))
  }

  ghost predicate HoldsStart(l: Layout, start: seq<Path>, seen: set<Path>, queue: seq<Path>) {
    forall p :: p in start && p in l.files ==> p in seen || p in queue
  }

  /** Visiting a file that parses keeps what the worklist maintains. */
  lemma Expanded(l: Layout, start: seq<Path>, seen: set<Path>, rest: seq<Path>, path: Path)
    requires WellNamed(l) && path in l.files && path in l.imports
    requires Explored(l, seen, rest + [path]) && OnlyReachable(l, start, seen, rest + [path]) &&
      HoldsStart(l, start, seen, rest + [path])
    ensures var queue := rest + Imported(l, path, |l.imports[path]|);
      Explored(l, seen + {path}, queue) && OnlyReachable(l, start, seen + {path}, queue) &&
        HoldsStart(l, start, seen + {path}, queue)
  {
    var new_ := Imported(l, path, |l.imports[path]|);
    assert path in rest + [path];
    forall q | q in new_ && q in l.files ensures Reachable(l, start, q) {
      OneFurther(l, start, path, q);
    }
    forall p | p in rest && p in l.files ensures Reachable(l, start, p) {
      assert p in rest + [path];
    }
  }

  /** Whatever a seen file imports is seen or waiting. */
  ghost predicate Explored(l: Layout, seen: set<Path>, queue: seq<Path>)
    requires WellNamed(l)
  {
    forall p, q :: p in seen && Edge(l, p, q) && q in l.files ==> q in seen || q in queue
  }

  lemma OneFurther(l: Layout, start: seq<Path>, p: Path, q: Path)
    requires WellNamed(l) && Reachable(l, start, p) && Edge(l, p, q) && q in l.files
    ensures Reachable(l, start, q)
  {
    var n: nat :| Reached(l, start, p, n);
    assert Reached(l, start, q, n + 1);
  }

  /** A set that contains the start files and is closed under imports contains every
      reachable file. */
  lemma {:induction false} ClosedUnderReach(l: Layout, start: seq<Path>, seen: set<Path>, p: Path, n: nat)
    requires WellNamed(l) && Reached(l, start, p, n)
    requires forall q :: q in start && q in l.files ==> q in seen
    requires Explored(l, seen, [])
    ensures p in seen
    decreases n
  {
    if n > 0 {
      var q :| Reached(l, start, q, n - 1) && Edge(l, q, p);
      ClosedUnderReach(l, start, seen, q, n - 1);
    }
  }
}
