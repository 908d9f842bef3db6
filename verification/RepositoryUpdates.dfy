/** Restricting a repository update to the paths a subscriber cares about. */
module RepositoryUpdates {
  import opened Options

  /** A path is its list of components, so that one path starts with another iff the lists do. */
  type Path = seq<string>

  datatype TargetFile = TargetFile(path: Path, isIgnored: bool)

  datatype RepositoryUpdate = RepositoryUpdate(
    added: set<TargetFile>,
    modified: set<TargetFile>,
    deleted: set<TargetFile>,
    moved: map<TargetFile, TargetFile>,  // from the new name to the old one
    commitUpdated: bool,
    indexLockDetected: bool)
  {
    predicate HasEntries() {
      added != {} || modified != {} || deleted != {} || moved.Keys != {}
    }

    predicate IsEmpty() {
      !HasEntries() && !commitUpdated && !indexLockDetected
    }
  }

  // ----- the filter

  function Kept(targets: set<TargetFile>, keep: Path -> bool): set<TargetFile> {
    set t | t in targets && keep(t.path)
  }

  type Moves = map<TargetFile, TargetFile>

  function MovesIn(moved: Moves, keep: Path -> bool): set<TargetFile> {
    set to | to in moved && keep(to.path) && !keep(moved[to].path)
  }

  function MovesOut(moved: Moves, keep: Path -> bool): set<TargetFile> {
    set to | to in moved && !keep(to.path) && keep(moved[to].path) :: moved[to]
  }

  function MovesInside(moved: Moves, keep: Path -> bool): Moves {
    map to | to in moved && keep(to.path) && keep(moved[to].path) :: moved[to]
  }

  /** The entries that survive: a move across the boundary turns into an addition or a deletion. */
  function Filtered(u: RepositoryUpdate, keep: Path -> bool): RepositoryUpdate {
    RepositoryUpdate(
      Kept(u.added, keep) + MovesIn(u.moved, keep),
      Kept(u.modified, keep),
      Kept(u.deleted, keep) + MovesOut(u.moved, keep),
      MovesInside(u.moved, keep),
      u.commitUpdated,
      u.indexLockDetected)
  }

  function Filter(u: RepositoryUpdate, keep: Path -> bool): Option<RepositoryUpdate> {
    var f := Filtered(u, keep);
    if f.IsEmpty() then None else Some(f)
  }

  function Under(prefix: Path): Path -> bool {
    (path: Path) => prefix <= path
  }

  /** The common loop of `filter_repository_update` over one of the sets. */
  method KeepTargets(targets: set<TargetFile>, keep: Path -> bool) returns (kept: set<TargetFile>)
    ensures kept == Kept(targets, keep)
  {
    kept := {};
    var rest := targets;
    while rest != {}
      invariant rest <= targets && kept == Kept(targets - rest, keep)
      decreases rest
    {
      var target :| target in rest;
      if keep(target.path) {
        kept := kept + {target};
      }
      rest := rest - {target};
    }
    assert targets - rest == targets;
  }

  /** The moves whose new names are among the given ones. */
  function MovesOf(moved: Moves, names: set<TargetFile>): Moves {
    map to | to in moved && to in names :: moved[to]
  }

  /** The update that says nothing. */
  const NOTHING := RepositoryUpdate({}, {}, {}, map[], false, false)

  /** Where each entry goes: every kept target stays in its own set, every move inside stays a move, a move from outside
      is an addition, a move to the outside a deletion, and there is nothing else. */
  ghost predicate IsFiltered(u: RepositoryUpdate, keep: Path -> bool, f: RepositoryUpdate) {
    && (forall t :: t in f.added <==>
          keep(t.path) && (t in u.added || (t in u.moved && !keep(u.moved[t].path))))
    && (forall t :: t in f.modified <==> t in u.modified && keep(t.path))
    && (forall t :: t in f.deleted <==>
          keep(t.path) && (t in u.deleted || exists to :: to in u.moved && u.moved[to] == t && !keep(to.path)))
    && (forall to :: to in f.moved <==> to in u.moved && keep(to.path) && keep(u.moved[to].path))
    && (forall to :: to in f.moved ==> f.moved[to] == u.moved[to])
    && f.commitUpdated == u.commitUpdated && f.indexLockDetected == u.indexLockDetected
  }

  lemma {:induction false} EntriesSurvive(u: RepositoryUpdate, keep: Path -> bool)
    ensures IsFiltered(u, keep, if Filter(u, keep).Some? then Filter(u, keep).value else NOTHING)
  {
    var f := Filtered(u, keep);
    assert f.moved.Keys == {} ==> f.moved == map[];
    assert f.IsEmpty() ==> f == NOTHING;
  }

  /** `filter_repository_update` */
  method FilterRepositoryUpdate(update: RepositoryUpdate, keep: Path -> bool) returns (r: Option<RepositoryUpdate>)
    ensures r == Filter(update, keep)
    ensures IsFiltered(update, keep, if r.Some? then r.value else NOTHING)
  {
    var added := KeepTargets(update.added, keep);
    var modified := KeepTargets(update.modified, keep);
    var deleted := KeepTargets(update.deleted, keep);
    var filtered := RepositoryUpdate(added, modified, deleted, map[], update.commitUpdated, update.indexLockDetected);
    var rest := update.moved.Keys;
    while rest != {}
      invariant rest <= update.moved.Keys
      invariant filtered == Filtered(update.(moved := MovesOf(update.moved, update.moved.Keys - rest)), keep)
      decreases rest
    {
      var to :| to in rest;
      var from := update.moved[to];
      ghost var seen := MovesOf(update.moved, update.moved.Keys - rest);
      assert MovesOf(update.moved, update.moved.Keys - (rest - {to})) == seen[to := from];
      MoveOneMore(update.(moved := seen), keep, to, from);
      if keep(to.path) && keep(from.path) {
        filtered := filtered.(moved := filtered.moved[to := from]);
      } else if keep(to.path) {
        filtered := filtered.(added := filtered.added + {to});
      } else if keep(from.path) {
        filtered := filtered.(deleted := filtered.deleted + {from});
      }
      rest := rest - {to};
    }
    assert MovesOf(update.moved, update.moved.Keys - rest) == update.moved;
    EntriesSurvive(update, keep);
    r := if filtered.IsEmpty() then None else Some(filtered);
  }

  /** How the filtered update grows with one more move. */
  lemma MoveOneMore(u: RepositoryUpdate, keep: Path -> bool, to: TargetFile, from: TargetFile)
    requires to !in u.moved
    ensures var before := Filtered(u, keep);
            var after := Filtered(u.(moved := u.moved[to := from]), keep);
            after == if keep(to.path) && keep(from.path) then before.(moved := before.moved[to := from])
                     else if keep(to.path) then before.(added := before.added + {to})
                     else if keep(from.path) then before.(deleted := before.deleted + {from})
                     else before
  {
    OneMoreIn(u.moved, keep, to, from);
    OneMoreOut(u.moved, keep, to, from);
  }

  lemma OneMoreIn(moved: Moves, keep: Path -> bool, to: TargetFile, from: TargetFile)
    requires to !in moved
    ensures MovesIn(moved[to := from], keep) ==
            MovesIn(moved, keep) + if keep(to.path) && !keep(from.path) then {to} else {}
    ensures MovesInside(moved[to := from], keep) ==
            if keep(to.path) && keep(from.path) then MovesInside(moved, keep)[to := from] else MovesInside(moved, keep)
  {
  }

  lemma OneMoreOut(moved: Moves, keep: Path -> bool, to: TargetFile, from: TargetFile)
    requires to !in moved
    ensures MovesOut(moved[to := from], keep) ==
            MovesOut(moved, keep) + if !keep(to.path) && keep(from.path) then {from} else {}
  {
    var m := moved[to := from];
    forall x | x in moved ensures x in m && m[x] == moved[x] {
    }
    if !keep(to.path) && keep(from.path) {
      assert to in m && m[to] == from;
    }
  }

  // ----- what an update does to an index of files

  /** An update deletes a path: it was deleted, or moved away. */
  predicate Removes(u: RepositoryUpdate, p: Path) {
    (exists t :: t in u.deleted && t.path == p) || (exists to :: to in u.moved && u.moved[to].path == p)
  }

  /** An update makes a path be read again from disk: it was added, modified, or moved there. */
  predicate Refreshes(u: RepositoryUpdate, p: Path) {
    (exists t :: t in u.added + u.modified && t.path == p) || (exists to :: to in u.moved && to.path == p)
  }

  function PathsOf(u: RepositoryUpdate): set<Path> {
    (set t | t in u.added + u.modified + u.deleted :: t.path) +
    (set to | to in u.moved :: to.path) + (set to | to in u.moved :: u.moved[to].path)
  }

  /** An index of file contents after an update; what is read again is what the disk holds now. Removals come before
      additions, so a path both removed and added is present. */
  function Apply<C>(u: RepositoryUpdate, index: map<Path, C>, disk: Path -> C): map<Path, C> {
    map p | p in index.Keys + PathsOf(u) && (Refreshes(u, p) || (p in index && !Removes(u, p))) ::
      if Refreshes(u, p) then disk(p) else index[p]
  }

  /** Without an update nothing changes. */
  function ApplyIfAny<C>(u: Option<RepositoryUpdate>, index: map<Path, C>, disk: Path -> C): map<Path, C> {
    if u.None? then index else Apply(u.value, index, disk)
  }

  function Restrict<C>(index: map<Path, C>, keep: Path -> bool): map<Path, C> {
    map p | p in index && keep(p) :: index[p]
  }

  lemma FilteredRefreshes(u: RepositoryUpdate, keep: Path -> bool, p: Path)
    ensures Refreshes(Filtered(u, keep), p) <==> keep(p) && Refreshes(u, p)
  {
    var f := Filtered(u, keep);
    if keep(p) && Refreshes(u, p) {
      if to :| to in u.moved && to.path == p {
        assert if keep(u.moved[to].path) then to in f.moved else to in f.added;
      } else {
        var t :| t in u.added + u.modified && t.path == p;
        assert t in f.added + f.modified;
      }
    }
  }

  lemma FilteredRemoves(u: RepositoryUpdate, keep: Path -> bool, p: Path)
    ensures Removes(Filtered(u, keep), p) <==> keep(p) && Removes(u, p)
  {
    var f := Filtered(u, keep);
    if keep(p) && Removes(u, p) {
      if to :| to in u.moved && u.moved[to].path == p {
        assert if keep(to.path) then to in f.moved && f.moved[to] == u.moved[to] else u.moved[to] in f.deleted;
      } else {
        var t :| t in u.deleted && t.path == p;
        assert t in f.deleted;
      }
    }
    if Removes(f, p) {
      if t :| t in f.deleted && t.path == p {
        assert t in u.deleted || exists to :: to in u.moved && u.moved[to] == t;
      }
    }
  }

  lemma MentionedPaths(u: RepositoryUpdate, p: Path)
    ensures Refreshes(u, p) ==> p in PathsOf(u)
  {
  }

  lemma EmptyUpdateChangesNothing<C>(u: RepositoryUpdate, index: map<Path, C>, disk: Path -> C)
    requires !u.HasEntries()
    ensures Apply(u, index, disk) == index
  {
    assert u.moved == map[];
    assert forall p :: !Refreshes(u, p) && !Removes(u, p);
  }

  /** Filtering commutes with applying: a subscriber that only knows the kept part of the index and only receives the
      filtered update ends up with the kept part of the updated index. This includes moves across the boundary. */
  lemma {:induction false} FilterCommutesWithApply<C>(
    u: RepositoryUpdate, keep: Path -> bool, index: map<Path, C>, disk: Path -> C)
    ensures Restrict(Apply(u, index, disk), keep) == ApplyIfAny(Filter(u, keep), Restrict(index, keep), disk)
  {
    var f := Filtered(u, keep);
    var l, r := Restrict(Apply(u, index, disk), keep), Apply(f, Restrict(index, keep), disk);
    forall p ensures (p in l <==> p in r) && (p in l ==> l[p] == r[p]) {
      FilteredRefreshes(u, keep, p);
      FilteredRemoves(u, keep, p);
      MentionedPaths(u, p);
      MentionedPaths(f, p);
    }
    assert l == r;
    if f.IsEmpty() {
      EmptyUpdateChangesNothing(f, Restrict(index, keep), disk);
    }
  }

  // ----- filtering twice

  function Both(p: Path -> bool, q: Path -> bool): Path -> bool {
    (path: Path) => p(path) && q(path)
  }

  lemma FilteredTwice(u: RepositoryUpdate, p: Path -> bool, q: Path -> bool)
    ensures Filtered(Filtered(u, p), q) == Filtered(u, Both(p, q))
  {
    AddedTwice(u, p, q);
    DeletedTwice(u, p, q);
    MovedTwice(u.moved, p, q);
    KeptTwice(u.modified, p, q);
  }

  lemma KeptTwice(targets: set<TargetFile>, p: Path -> bool, q: Path -> bool)
    ensures Kept(Kept(targets, p), q) == Kept(targets, Both(p, q))
  {
  }

  lemma MovedTwice(moved: Moves, p: Path -> bool, q: Path -> bool)
    ensures MovesInside(MovesInside(moved, p), q) == MovesInside(moved, Both(p, q))
  {
  }

  lemma AddedTwice(u: RepositoryUpdate, p: Path -> bool, q: Path -> bool)
    ensures Filtered(Filtered(u, p), q).added == Filtered(u, Both(p, q)).added
  {
  }

  lemma DeletedTwice(u: RepositoryUpdate, p: Path -> bool, q: Path -> bool)
    ensures Filtered(Filtered(u, p), q).deleted == Filtered(u, Both(p, q)).deleted
  {
    var f, b := Filtered(u, p), Filtered(u, Both(p, q));
    var g := Filtered(f, q);
    forall t | t in MovesOut(u.moved, Both(p, q)) ensures t in g.deleted {
      var to :| to in u.moved && !Both(p, q)(to.path) && Both(p, q)(u.moved[to].path) && u.moved[to] == t;
      assert if p(to.path) then to in f.moved && f.moved[to] == t else t in f.deleted;
    }
    forall t | t in MovesOut(f.moved, q) ensures t in b.deleted {
      var to :| to in f.moved && !q(to.path) && q(f.moved[to].path) && f.moved[to] == t;
      assert to in u.moved && u.moved[to] == t;
    }
    forall t | t in MovesOut(u.moved, p) && q(t.path) ensures t in b.deleted {
      var to :| to in u.moved && !p(to.path) && p(u.moved[to].path) && u.moved[to] == t;
    }
  }

  /** Filtering by one test and then by another is filtering by both at once, also when nothing is left in between. */
  lemma FilterTwiceIsFilterByBoth(u: RepositoryUpdate, p: Path -> bool, q: Path -> bool)
    ensures (if Filter(u, p).None? then None else Filter(Filter(u, p).value, q)) == Filter(u, Both(p, q))
  {
    FilteredTwice(u, p, q);
    if Filter(u, p).None? {
      var f := Filtered(u, p);
      assert Filtered(f, q) == f;
    }
  }

  /** For prefixes: narrowing a subscription to a subdirectory can start from the already filtered update. */
  lemma NestedPrefixes(u: RepositoryUpdate, outer: Path, inner: Path)
    requires outer <= inner
    ensures (if Filter(u, Under(outer)).None? then None else Filter(Filter(u, Under(outer)).value, Under(inner))) ==
            Filter(u, Under(inner))
  {
    FilterTwiceIsFilterByBoth(u, Under(outer), Under(inner));
    SameTestSameFilter(u, Both(Under(outer), Under(inner)), Under(inner));
  }

  lemma SameTestSameFilter(u: RepositoryUpdate, p: Path -> bool, q: Path -> bool)
    requires forall path: Path :: p(path) == q(path)
    ensures Filtered(u, p) == Filtered(u, q)
  {
    assert Kept(u.added, p) == Kept(u.added, q);
    assert Filtered(u, p).moved == Filtered(u, q).moved;
  }

  // ----- touching

  /** `repository_update_touches_prefix` */
  predicate TouchesPrefix(u: RepositoryUpdate, prefix: Path) {
    exists p :: p in PathsOf(u) && prefix <= p
  }

  /** An update touches a prefix iff some added, modified, deleted or moved entry survives the filter. */
  lemma TouchesIffAnEntrySurvives(u: RepositoryUpdate, prefix: Path)
    ensures TouchesPrefix(u, prefix) <==> Filtered(u, Under(prefix)).HasEntries()
  {
    var f := Filtered(u, Under(prefix));
    if TouchesPrefix(u, prefix) {
      var p :| p in PathsOf(u) && prefix <= p;
      if t :| t in u.added + u.modified + u.deleted && t.path == p {
        assert t in f.added + f.modified + f.deleted;
      } else if to :| to in u.moved && to.path == p {
        assert to in f.added || to in f.moved;
      } else {
        var to :| to in u.moved && u.moved[to].path == p;
        assert u.moved[to] in f.deleted || to in f.moved;
      }
    }
    if f.HasEntries() {
      if t :| t in f.added + f.modified + f.deleted {
        assert t.path in PathsOf(u);
      } else {
        var to :| to in f.moved.Keys;
        assert to.path in PathsOf(u);
      }
    }
  }

  /** The flags alone keep an update alive that touches nothing: the filter answers `None` iff the prefix is untouched
      and neither flag is set. */
  lemma FilterIsNoneIff(u: RepositoryUpdate, prefix: Path)
    ensures Filter(u, Under(prefix)).None? <==> !TouchesPrefix(u, prefix) && !u.commitUpdated && !u.indexLockDetected
  {
    TouchesIffAnEntrySurvives(u, prefix);
  }
}
