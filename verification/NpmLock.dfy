/** Collecting the production packages of an npm lock file: a worklist over nearest-ancestor resolution. */
module NpmLock {
  import opened Options

  /** A lock key or a package name as its path components. */
  type Path = seq<string>

  const NODE_MODULES := "node_modules"

  /** The lock's edges in the sorted order the source visits them; a peer is optional when its meta data says so. */
  datatype Item = Item(dev: bool, dependencies: seq<Path>, optionalDependencies: seq<Path>,
                       peerDependencies: seq<(Path, bool)>)

  /** Someone at `parent` asks for `name`. */
  datatype Request = Request(parent: Path, name: Path, optional: bool)

  datatype Reason = InvalidName(name: Path) | Absent(name: Path) | DevelopmentOnly(path: Path)

  datatype Outcome = Selected(paths: set<Path>) | Failed(reason: Reason)

  /** `_validate_npm_package_name`, on the parts between slashes. */
  predicate ValidName(name: Path) {
    && (forall k :: 0 <= k < |name| ==> PlainText(name[k]))
    && ((|name| == 1 && name[0] != "" && name[0][0] != '@' && name[0] != "." && name[0] != "..")
        || (|name| == 2 && |name[0]| > 1 && name[0][0] == '@' && name[1] != "" && name[1] != "." && name[1] != ".."))
  }

  /** One part, or two of which exactly the first is a scope; none is empty or leads elsewhere. */
  lemma NamesAreSafe(name: Path)
    ensures ValidName(name)
       <==> && 1 <= |name| <= 2
            && (forall part :: part in name ==> part !in {"", ".", ".."})
            && (forall part, c :: part in name && c in part ==> c != '\\' && ' ' <= c)
            && (|name| == 1 ==> !("@" <= name[0])) && (|name| == 2 ==> "@" < name[0])
  {
    forall part | part in name ensures PlainText(part) <==> forall c :: c in part ==> c != '\\' && ' ' <= c {
      PlainCharacters(part);
    }
    if name != [] {
      assert name[0] in name && name[|name| - 1] in name;
      assert "@" <= name[0] <==> name[0] != "" && name[0][0] == '@';
    }
  }

  lemma PlainCharacters(part: string)
    ensures PlainText(part) <==> forall c :: c in part ==> c != '\\' && ' ' <= c
  {
    assert forall k :: 0 <= k < |part| ==> part[k] in part;
  }

  predicate PlainText(part: string) {
    forall k :: 0 <= k < |part| ==> part[k] != '\\' && part[k] >= ' '
  }

  // ---------------------------------------------------------------- Resolution

  function Candidate(directory: Path, name: Path): Path {
    directory + [NODE_MODULES] + name
  }

  function Resolve(packages: map<Path, Item>, parent: Path, name: Path): (r: Option<Path>)
    ensures r.Some? ==> r.value in packages
  {
    if Candidate(parent, name) in packages then Some(Candidate(parent, name))
    else if parent == [] then None
    else Resolve(packages, parent[..|parent| - 1], name)
  }

  method ResolveLockedDependency(packages: map<Path, Item>, parent: Path, name: Path) returns (r: Option<Path>)
    ensures r == Resolve(packages, parent, name)
  {
    var directory := parent;
    while true
      invariant Resolve(packages, directory, name) == Resolve(packages, parent, name)
      decreases |directory|
    {
      if Candidate(directory, name) in packages {
        return Some(Candidate(directory, name));
      }
      if directory == [] {
        return None;
      }
      directory := directory[..|directory| - 1];
    }
  }

  /** The package an ancestor holds is found when no nearer directory holds one. */
  lemma {:induction false} NearestAncestor(packages: map<Path, Item>, parent: Path, name: Path, k: nat)
    requires k <= |parent| && Candidate(parent[..k], name) in packages
    requires forall j :: k < j <= |parent| ==> Candidate(parent[..j], name) !in packages
    ensures Resolve(packages, parent, name) == Some(Candidate(parent[..k], name))
  {
    assert parent[..|parent|] == parent;
    if k < |parent| {
      var up := parent[..|parent| - 1];
      assert forall j :: 0 <= j <= |up| ==> up[..j] == parent[..j];
      NearestAncestor(packages, up, name, k);
    }
  }

  /** Nothing is found when no ancestor, the root included, holds the package. */
  lemma {:induction false} NoAncestor(packages: map<Path, Item>, parent: Path, name: Path)
    requires forall j :: 0 <= j <= |parent| ==> Candidate(parent[..j], name) !in packages
    ensures Resolve(packages, parent, name) == None
  {
    assert parent[..|parent|] == parent;
    if parent != [] {
      var up := parent[..|parent| - 1];
      assert forall j :: 0 <= j <= |up| ==> up[..j] == parent[..j];
      NoAncestor(packages, up, name);
    }
  }

  // ---------------------------------------------------------------- Reachability

  function Plain(parent: Path, names: seq<Path>, optional: bool): seq<Request> {
    seq(|names|, k requires 0 <= k < |names| => Request(parent, names[k], optional))
  }

  function Peers(parent: Path, peers: seq<(Path, bool)>): seq<Request> {
    seq(|peers|, k requires 0 <= k < |peers| => Request(parent, peers[k].0, peers[k].1))
  }

  /** What a package asks for: required, optional and peer edges. */
  function Requests(path: Path, item: Item): seq<Request> {
    Plain(path, item.dependencies, false) + Plain(path, item.optionalDependencies, true)
    + Peers(path, item.peerDependencies)
  }

  /** The package has this name among its dependencies of this kind. */
  predicate Asks(item: Item, name: Path, optional: bool) {
    || (name in item.dependencies && !optional)
    || (name in item.optionalDependencies && optional)
    || (name, optional) in item.peerDependencies
  }

  /** The requests are those, at this package: plain dependencies are required, optional ones are not. */
  lemma RequestsAre(path: Path, item: Item, q: Request)
    ensures q in Requests(path, item) <==> q.parent == path && Asks(item, q.name, q.optional)
  {
    var plain, optional, peers := Plain(path, item.dependencies, false), Plain(path, item.optionalDependencies, true),
                                  Peers(path, item.peerDependencies);
    assert forall k :: 0 <= k < |item.dependencies| ==> plain[k] == Request(path, item.dependencies[k], false);
    assert forall k :: 0 <= k < |item.optionalDependencies| ==>
        optional[k] == Request(path, item.optionalDependencies[k], true);
    assert forall k :: 0 <= k < |item.peerDependencies| ==>
        peers[k] == Request(path, item.peerDependencies[k].0, item.peerDependencies[k].1);
  }

  /** The package at `here` asks for one that is found at `there`. */
  ghost predicate Leads(packages: map<Path, Item>, here: Path, there: Path)
    requires here in packages
  {
    exists name, optional :: Asks(packages[here], name, optional) && Resolve(packages, here, name) == Some(there)
  }

  /** A chain of packages in which each asks for the next, and the root asks for the first. */
  ghost predicate IsChain(packages: map<Path, Item>, roots: seq<Path>, chain: seq<Path>) {
    && chain != []
    && var n := |chain| - 1;
       chain[n] in packages
       && if n == 0 then exists name :: name in roots && Resolve(packages, [], name) == Some(chain[0])
          else IsChain(packages, roots, chain[..n]) && chain[n - 1] in packages
               && Leads(packages, chain[n - 1], chain[n])
  }

  ghost predicate Reachable(packages: map<Path, Item>, roots: seq<Path>, path: Path) {
    exists chain :: IsChain(packages, roots, chain) && chain[|chain| - 1] == path
  }

  /** Made by the root or by a reachable package. */
  ghost predicate IsMade(packages: map<Path, Item>, roots: seq<Path>, q: Request) {
    || (q.parent == [] && q.name in roots && !q.optional)
    || (q.parent in packages && Reachable(packages, roots, q.parent)
        && Asks(packages[q.parent], q.name, q.optional))
  }

  /** The request cannot be met, or meets a package that may not ship. */
  ghost predicate Offends(packages: map<Path, Item>, q: Request) {
    var target := Resolve(packages, q.parent, q.name);
    !ValidName(q.name) || (target.None? && !q.optional) || (target.Some? && packages[target.value].dev)
  }

  /** Following a made request leads to a reachable package. */
  lemma MadeReaches(packages: map<Path, Item>, roots: seq<Path>, q: Request)
    requires IsMade(packages, roots, q) && Resolve(packages, q.parent, q.name).Some?
    ensures Reachable(packages, roots, Resolve(packages, q.parent, q.name).value)
  {
    hide Resolve, Asks;
    var target := Resolve(packages, q.parent, q.name).value;
    if q.parent == [] && q.name in roots && !q.optional {
      assert IsChain(packages, roots, [target]);
    } else {
      var chain :| IsChain(packages, roots, chain) && chain[|chain| - 1] == q.parent;
      var longer := chain + [target];
      assert longer[..|longer| - 1] == chain;
      assert IsChain(packages, roots, longer);
    }
  }

  /** The request is settled: its target is selected, or it is optional and has none. */
  ghost predicate Settled(packages: map<Path, Item>, selected: set<Path>, q: Request) {
    var target := Resolve(packages, q.parent, q.name);
    ValidName(q.name) && if target.Some? then target.value in selected else q.optional
  }

  ghost predicate AllSettled(packages: map<Path, Item>, roots: seq<Path>, selected: set<Path>) {
    && (forall name :: name in roots ==> Settled(packages, selected, Request([], name, false)))
    && (forall p, name, optional :: p in selected && p in packages && Asks(packages[p], name, optional) ==>
          Settled(packages, selected, Request(p, name, optional)))
  }

  /** A selection all of whose requests are settled holds everything reachable. */
  lemma {:induction false} ClosedHoldsChain(packages: map<Path, Item>, roots: seq<Path>, selected: set<Path>,
          chain: seq<Path>)
    requires AllSettled(packages, roots, selected) && IsChain(packages, roots, chain)
    ensures chain[|chain| - 1] in selected
    decreases |chain|
  {
    hide Resolve, Asks, ValidName;
    var n := |chain| - 1;
    if n == 0 {
      var name :| name in roots && Resolve(packages, [], name) == Some(chain[0]);
      assert Settled(packages, selected, Request([], name, false));
    } else {
      ClosedHoldsChain(packages, roots, selected, chain[..n]);
      var p := chain[n - 1];
      var name, optional :| Asks(packages[p], name, optional) && Resolve(packages, p, name) == Some(chain[n]);
      assert Settled(packages, selected, Request(p, name, optional));
    }
  }

  lemma ClosedHoldsReachable(packages: map<Path, Item>, roots: seq<Path>, selected: set<Path>)
    requires AllSettled(packages, roots, selected)
    ensures forall p :: Reachable(packages, roots, p) ==> p in selected
  {
    hide AllSettled;
    forall p | Reachable(packages, roots, p) ensures p in selected {
      var chain :| IsChain(packages, roots, chain) && chain[|chain| - 1] == p;
      ClosedHoldsChain(packages, roots, selected, chain);
    }
  }

  /** A closed selection of shippable packages means that no request offends. */
  lemma ClosedNeverOffends(packages: map<Path, Item>, roots: seq<Path>, selected: set<Path>)
    requires AllSettled(packages, roots, selected)
    requires forall p :: p in selected ==> p in packages && !packages[p].dev
    ensures forall q :: IsMade(packages, roots, q) ==> !Offends(packages, q)
  {
    hide Resolve, Asks, ValidName, Reachable;
    ClosedHoldsReachable(packages, roots, selected);
    forall q | IsMade(packages, roots, q) ensures !Offends(packages, q) {
      assert Settled(packages, selected, q) by {
        if q.parent == [] && q.name in roots && !q.optional {
          assert q == Request([], q.name, false);
        } else {
          assert q == Request(q.parent, q.name, q.optional);
        }
      }
    }
  }

  /** The reason given names a request that really offends. */
  ghost predicate Justified(packages: map<Path, Item>, roots: seq<Path>, reason: Reason) {
    exists q :: IsMade(packages, roots, q) && Offends(packages, q)
      && match reason
         case InvalidName(name) => name == q.name && !ValidName(name)
         case Absent(name) => name == q.name && Resolve(packages, q.parent, name).None?
         case DevelopmentOnly(path) => Resolve(packages, q.parent, q.name) == Some(path)
  }

  // ---------------------------------------------------------------- The worklist

  /**
   The worklist computes exactly what the root reaches, and fails exactly when a request made on the way
   is unmet, malformed or reaches a development-only package; cycles do no harm.
   */
  method CollectProduction(packages: map<Path, Item>, roots: seq<Path>) returns (r: Outcome)
    ensures r.Selected? ==> forall p :: p in r.paths <==> Reachable(packages, roots, p)
    ensures r.Selected? <==> forall q :: IsMade(packages, roots, q) ==> !Offends(packages, q)
    ensures r.Failed? ==> Justified(packages, roots, r.reason)
  {
    hide Resolve, Requests, Asks, ValidName, Reachable, Waiting, AllSettled, IsMade;
    var pending := Plain([], roots, false);
    RootsWait(packages, roots);
    var selected: set<Path> := {};
    while pending != []
      invariant forall q :: q in pending ==> IsMade(packages, roots, q)
      invariant selected <= packages.Keys
      invariant forall p :: p in selected ==> Reachable(packages, roots, p) && !packages[p].dev
      invariant Waiting(packages, roots, selected, pending)
      decreases |packages.Keys - selected|, |pending|
    {
      var q := pending[0];
      ghost var before := pending;
      pending := pending[1..];
      assert before == [q] + pending;
      if !ValidName(q.name) {
        assert Offends(packages, q);
        return Failed(InvalidName(q.name));
      }
      var target := ResolveLockedDependency(packages, q.parent, q.name);
      if target.None? {
        if q.optional {
          SettledLeaves(packages, roots, selected, before);
          continue;
        }
        assert Offends(packages, q);
        return Failed(Absent(q.name));
      }
      var path := target.value;
      if path in selected {
        SettledLeaves(packages, roots, selected, before);
        continue;
      }
      MadeReaches(packages, roots, q);
      if packages[path].dev {
        assert Offends(packages, q);
        return Failed(DevelopmentOnly(path));
      }
      Shrinks(packages.Keys, selected, path);
      SelectedJoins(packages, roots, selected, before, path);
      selected := selected + {path};
      NewRequests(packages, roots, path);
      pending := pending + Requests(path, packages[path]);
    }
    NothingWaits(packages, roots, selected);
    ClosedHoldsReachable(packages, roots, selected);
    ClosedNeverOffends(packages, roots, selected);
    return Selected(selected);
  }

  /** Every request of the root and of a selected package is still pending or settled. */
  ghost predicate Waiting(packages: map<Path, Item>, roots: seq<Path>, selected: set<Path>, pending: seq<Request>) {
    && (forall name :: name in roots ==>
          Request([], name, false) in pending || Settled(packages, selected, Request([], name, false)))
    && (forall p, name, optional :: p in selected && p in packages && Asks(packages[p], name, optional) ==>
          var q := Request(p, name, optional); q in pending || Settled(packages, selected, q))
  }

  lemma RootsWait(packages: map<Path, Item>, roots: seq<Path>)
    ensures Waiting(packages, roots, {}, Plain([], roots, false))
    ensures forall q :: q in Plain([], roots, false) ==> IsMade(packages, roots, q)
  {
    hide Resolve, Reachable, Asks;
    forall name | name in roots ensures Request([], name, false) in Plain([], roots, false) {
      var k :| 0 <= k < |roots| && roots[k] == name;
      assert Plain([], roots, false)[k] == Request([], name, false);
    }
  }

  lemma SettledLeaves(packages: map<Path, Item>, roots: seq<Path>, selected: set<Path>, pending: seq<Request>)
    requires Waiting(packages, roots, selected, pending) && pending != [] && Settled(packages, selected, pending[0])
    ensures Waiting(packages, roots, selected, pending[1..])
  {
    hide Settled, Asks;
    assert pending == [pending[0]] + pending[1..];
  }

  lemma SelectedJoins(packages: map<Path, Item>, roots: seq<Path>, selected: set<Path>, pending: seq<Request>,
          path: Path)
    requires Waiting(packages, roots, selected, pending) && pending != [] && path in packages
    requires ValidName(pending[0].name) && Resolve(packages, pending[0].parent, pending[0].name) == Some(path)
    ensures Waiting(packages, roots, selected + {path}, pending[1..] + Requests(path, packages[path]))
  {
    hide Resolve, ValidName, Requests, Asks;
    assert pending == [pending[0]] + pending[1..];
    forall name, optional | Asks(packages[path], name, optional)
      ensures Request(path, name, optional) in Requests(path, packages[path])
    {
      RequestsAre(path, packages[path], Request(path, name, optional));
    }
    assert forall q :: Settled(packages, selected, q) ==> Settled(packages, selected + {path}, q);
    assert Settled(packages, selected + {path}, pending[0]);
  }

  lemma NothingWaits(packages: map<Path, Item>, roots: seq<Path>, selected: set<Path>)
    requires Waiting(packages, roots, selected, [])
    ensures AllSettled(packages, roots, selected)
  {
    hide Settled, Asks;
  }

  lemma Shrinks(all: set<Path>, selected: set<Path>, path: Path)
    requires path in all && path !in selected
    ensures |all - (selected + {path})| < |all - selected|
  {
    assert all - selected == (all - (selected + {path})) + {path};
  }

  lemma NewRequests(packages: map<Path, Item>, roots: seq<Path>, path: Path)
    requires path in packages && Reachable(packages, roots, path)
    ensures forall q :: q in Requests(path, packages[path]) ==> IsMade(packages, roots, q)
  {
    hide Reachable, Requests, Asks;
    forall q | q in Requests(path, packages[path]) ensures IsMade(packages, roots, q) {
      RequestsAre(path, packages[path], q);
    }
  }
}
