/**
 The isolated clone an earlier gate is re-run in: a copy of the repository whose refs are
 cut down to one commit and whose unreachable commits are pruned.
 */
module PrunedClone {
  import opened Reachability

  type Sha = string

  /** Each commit with its parents. */
  type Commits = map<Sha, set<Sha>>

  datatype RefName = Branch(name: string) | Remote(name: string) | Tag(name: string)

  type Refs = map<RefName, Sha>

  datatype Head = Detached(sha: Sha) | OnBranch(name: string)

  /** Parents of a stored commit are stored, and refs and HEAD name stored commits. */
  predicate Sound(commits: Commits, refs: Refs, head: Head) {
    && (forall c :: c in commits ==> commits[c] <= commits.Keys)
    && (forall r :: r in refs ==> refs[r] in commits)
    && (head.Detached? ==> head.sha in commits)
  }

  ghost function Ancestors(commits: Commits, sha: Sha): set<Sha> {
    set c | c in commits && Reaches(commits, sha, c)
  }

  ghost predicate ReachedFrom(commits: Commits, roots: set<Sha>, c: Sha) {
    exists r :: r in roots && Reaches(commits, r, c)
  }

  function TagTargets(refs: Refs): set<Sha> {
    set r | r in refs && r.Tag? :: refs[r]
  }

  /** Only the tags of `refs`. */
  function Tags(refs: Refs): Refs {
    map r | r in refs && r.Tag? :: refs[r]
  }

  /** What `rev-list --grep` on a branch has to choose from. */
  ghost function Candidates(commits: Commits, refs: Refs, branch: string, matching: set<Sha>): set<Sha> {
    if Branch(branch) in refs then Ancestors(commits, refs[Branch(branch)]) * matching else {}
  }

  function Restrict(commits: Commits, keep: set<Sha>): Commits {
    map c | c in commits && c in keep :: commits[c]
  }

  lemma PruneIsSound(commits: Commits, refs: Refs, head: Head, roots: set<Sha>, keep: set<Sha>)
    requires Sound(commits, refs, head)
    requires forall r :: r in refs ==> refs[r] in roots
    requires head.Detached? ==> head.sha in roots
    requires forall c :: c in keep <==> ReachedFrom(commits, roots, c)
    ensures Sound(Restrict(commits, keep), refs, head)
  {
    forall r | r in roots ensures r in keep {
      ReachesSelf(commits, r);
    }
    forall c, p | c in Restrict(commits, keep) && p in commits[c] ensures p in Restrict(commits, keep) {
      var r :| r in roots && Reaches(commits, r, c);
      ReachesStep(commits, r, c, p);
    }
  }

  method ReachableFrom(commits: Commits, roots: set<Sha>) returns (keep: set<Sha>)
    ensures forall c :: c in keep <==> ReachedFrom(commits, roots, c)
  {
    keep := {};
    var done, todo := {}, roots;
    while todo != {}
      invariant done + todo == roots
      invariant forall c :: c in keep <==> ReachedFrom(commits, done, c)
      decreases todo
    {
      var r :| r in todo;
      var reached, _ := Closure(commits, r);
      todo, done, keep := todo - {r}, done + {r}, keep + reached;
    }
  }

  /** Every branch as a remote branch. */
  function RemotesOf(refs: Refs): (r: Refs)
    ensures forall x :: x in r ==> x.Remote? && Branch(x.name) in refs && r[x] == refs[Branch(x.name)]
  {
    map x | x in refs && x.Branch? :: Remote(x.name) := refs[x]
  }

  lemma RemotesOfAll(refs: Refs, n: string)
    ensures Remote(n) in RemotesOf(refs) <==> Branch(n) in refs
  {
    if Branch(n) in refs {
      assert Branch(n).Branch? && Branch(n).name == n;
    }
  }

  /** The branch HEAD is on. */
  function LocalOf(refs: Refs, head: Head): (r: Refs)
    ensures forall x :: x in r <==> x.Branch? && head == OnBranch(x.name) && x in refs
    ensures forall x :: x in r ==> r[x] == refs[x]
  {
    if head.OnBranch? && Branch(head.name) in refs then map[Branch(head.name) := refs[Branch(head.name)]] else map[]
  }

  function ClonedRefs(refs: Refs, head: Head): Refs {
    Tags(refs) + RemotesOf(refs) + LocalOf(refs, head)
  }

  lemma ClonedRefsAre(refs: Refs, head: Head)
    ensures Tags(ClonedRefs(refs, head)) == Tags(refs)
    ensures forall n :: Remote(n) in ClonedRefs(refs, head) <==> Branch(n) in refs
    ensures forall n :: Remote(n) in ClonedRefs(refs, head) ==> ClonedRefs(refs, head)[Remote(n)] == refs[Branch(n)]
    ensures forall n :: Branch(n) in ClonedRefs(refs, head) <==> head == OnBranch(n) && Branch(n) in refs
    ensures forall n :: Branch(n) in ClonedRefs(refs, head) ==> ClonedRefs(refs, head)[Branch(n)] == refs[Branch(n)]
  {
    forall n ensures Remote(n) in RemotesOf(refs) <==> Branch(n) in refs {
      RemotesOfAll(refs, n);
    }
  }

  lemma ClonedRefsName(refs: Refs, head: Head, commits: Commits)
    requires Sound(commits, refs, head)
    ensures Sound(commits, ClonedRefs(refs, head), head)
  {
  }

  // ---------------------------------------------------------------- the git steps

  class Repository {
    var commits: Commits
    var refs: Refs
    var head: Head
    var reflog: set<Sha>

    ghost predicate Valid()
      reads this
    {
      Sound(commits, refs, head)
    }

    constructor (commits: Commits, refs: Refs, head: Head)
      ensures this.commits == commits && this.refs == refs && this.head == head && reflog == {}
    {
      this.commits, this.refs, this.head, this.reflog := commits, refs, head, {};
    }

    /**
     A local clone copies the object store and the tags, turns the branches into remote
     branches and checks out the branch HEAD is on.
     */
    constructor Clone(source: Repository)
      requires source.Valid()
      ensures Valid() && commits == source.commits && head == source.head && Tags(refs) == Tags(source.refs)
      ensures forall n :: Remote(n) in refs <==> Branch(n) in source.refs
      ensures forall n :: Remote(n) in refs ==> refs[Remote(n)] == source.refs[Branch(n)]
      ensures forall n :: Branch(n) in refs <==> source.head == OnBranch(n) && Branch(n) in source.refs
      ensures forall n :: Branch(n) in refs ==> refs[Branch(n)] == source.refs[Branch(n)]
      ensures forall n :: Tag(n) in refs <==> Tag(n) in source.refs
      ensures forall n :: Tag(n) in refs ==> refs[Tag(n)] == source.refs[Tag(n)]
    {
      commits := source.commits;
      refs := ClonedRefs(source.refs, source.head);
      head := source.head;
      reflog := set r | r in source.refs && source.refs[r] in source.commits :: source.refs[r];
      new;
      ClonedRefsAre(source.refs, source.head);
      ClonedRefsName(source.refs, source.head, source.commits);
    }

    method CheckoutDetached(sha: Sha)
      requires Valid() && sha in commits
      modifies this`head, this`reflog
      ensures Valid() && head == Detached(sha) && reflog == old(reflog) + {sha}
    {
      head, reflog := Detached(sha), reflog + {sha};
    }

    method DeleteRef(ref: RefName)
      requires Valid()
      modifies this`refs
      ensures Valid() && refs == old(refs) - {ref}
    {
      refs := refs - {ref};
    }

    method CreateBranch(name: string, sha: Sha)
      requires Valid() && sha in commits && Branch(name) !in refs
      modifies this`refs, this`reflog
      ensures Valid() && refs == old(refs)[Branch(name) := sha] && reflog == old(reflog) + {sha}
    {
      refs, reflog := refs[Branch(name) := sha], reflog + {sha};
    }

    method ExpireReflog()
      requires Valid()
      modifies this`reflog
      ensures Valid() && reflog == {}
    {
      reflog := {};
    }

    /** Everything a prune must keep: refs, a detached HEAD and the reflog. */
    function Roots(): (roots: set<Sha>)
      reads this
      ensures forall c :: c in roots <==>
        || (exists r :: r in refs && refs[r] == c)
        || head == Detached(c)
        || (c in reflog && c in commits)
    {
      (set r | r in refs :: refs[r]) + (if head.Detached? then {head.sha} else {}) + (reflog * commits.Keys)
    }

    method CollectGarbage()
      requires Valid()
      modifies this`commits
      ensures Valid()
      ensures forall c :: c in commits <==> c in old(commits) && ReachedFrom(old(commits), old(Roots()), c)
      ensures forall c :: c in commits ==> commits[c] == old(commits)[c]
    {
      var keep := ReachableFrom(commits, Roots());
      PruneIsSound(commits, refs, head, Roots(), keep);
      commits := Restrict(commits, keep);
    }
  }

  /** Clone, detach at the commit, delete every branch and remote branch there is. */
  method Isolate(source: Repository, sha: Sha) returns (tree: Repository)
    requires source.Valid() && sha in source.commits
    ensures fresh(tree) && tree.Valid() && tree.commits == source.commits
    ensures tree.refs == Tags(source.refs) && tree.head == Detached(sha)
    ensures forall r :: r in tree.refs <==> r in source.refs && r.Tag?
    ensures forall r :: r in tree.refs ==> tree.refs[r] == source.refs[r]
  {
    tree := new Repository.Clone(source);
    tree.CheckoutDetached(sha);
    var listed := set r | r in tree.refs && !r.Tag?;
    while listed != {}
      invariant tree.Valid() && tree.commits == source.commits && tree.head == Detached(sha)
      invariant Tags(tree.refs) == Tags(source.refs)
      invariant forall r :: r in tree.refs && !r.Tag? ==> r in listed
      decreases listed
    {
      var r :| r in listed;
      tree.DeleteRef(r);
      listed := listed - {r};
    }
    assert tree.refs == Tags(source.refs);
  }

  /** What is left of a history once only a commit and the tags hold it. */
  ghost predicate Kept(source: Commits, refs: Refs, sha: Sha, c: Sha) {
    c in source && ReachedFrom(source, {sha} + TagTargets(refs), c)
  }

  lemma RootsAreShaAndTags(refs: Refs, sha: Sha, roots: set<Sha>)
    requires forall r :: r in roots <==> r == sha || exists n :: n in Tags(refs) && Tags(refs)[n] == r
    ensures roots == {sha} + TagTargets(refs)
  {
    forall r | r in TagTargets(refs) ensures r in roots {
      var n :| n in refs && n.Tag? && refs[n] == r;
      assert Tags(refs)[n] == r;
    }
  }

  /** The steps every gate from Phase 6 on runs before it starts an earlier gate. */
  method GateAtItsOwnTree(source: Repository, sha: Sha) returns (tree: Repository)
    requires source.Valid() && sha in source.commits
    ensures fresh(tree) && tree.Valid()
    ensures forall c :: c in tree.commits <==> Kept(source.commits, source.refs, sha, c)
    ensures forall c :: c in tree.commits ==> c in source.commits && tree.commits[c] == source.commits[c]
    ensures tree.refs == Tags(source.refs)[Branch("main") := sha] && tree.head == Detached(sha)
    ensures Ancestors(tree.commits, sha) == Ancestors(source.commits, sha)
  {
    tree := Isolate(source, sha);
    tree.CreateBranch("main", sha);
    tree.ExpireReflog();
    assert tree.refs[Branch("main")] == sha;
    assert forall n :: n in Tags(source.refs) ==> tree.refs[n] == Tags(source.refs)[n];
    RootsAreShaAndTags(source.refs, sha, tree.Roots());
    tree.CollectGarbage();
    assert sha in tree.commits;
    PartKeepsAncestors(tree.commits, source.commits, sha);
  }

  /** The Phase 5 steps, which leave no branch behind. */
  method GateWithoutMain(source: Repository, sha: Sha) returns (tree: Repository)
    requires source.Valid() && sha in source.commits
    ensures fresh(tree) && tree.Valid()
    ensures forall c :: c in tree.commits <==> Kept(source.commits, source.refs, sha, c)
    ensures forall branch, matching :: Candidates(tree.commits, tree.refs, branch, matching) == {}
  {
    tree := Isolate(source, sha);
    tree.ExpireReflog();
    RootsAreShaAndTags(source.refs, sha, tree.Roots());
    tree.CollectGarbage();
  }

  // ---------------------------------------------------------------- one history

  lemma PathInLarger(part: Commits, whole: Commits, p: seq<string>)
    requires forall c :: c in part ==> c in whole && whole[c] == part[c]
    requires Path(part, p)
    ensures Path(whole, p)
  {
  }

  /**
   A part of a history that holds the parents of everything it holds gives each of its
   commits the ancestors the whole gives it. So history added later is invisible, and so is
   history a prune removed.
   */
  lemma PartKeepsAncestors(part: Commits, whole: Commits, sha: Sha)
    requires forall c :: c in part ==> c in whole && whole[c] == part[c]
    requires forall c :: c in part ==> part[c] <= part.Keys
    requires sha in part
    ensures Ancestors(part, sha) == Ancestors(whole, sha)
    ensures forall c :: Reaches(part, sha, c) <==> Reaches(whole, sha, c)
  {
    forall c | Reaches(part, sha, c) ensures Reaches(whole, sha, c) {
      var p :| PathBetween(part, p, sha, c);
      PathInLarger(part, whole, p);
      assert PathBetween(whole, p, sha, c);
    }
    forall c | Reaches(whole, sha, c) ensures Reaches(part, sha, c) && c in part {
      var p :| PathBetween(whole, p, sha, c);
      forall i | 0 <= i < |p| ensures p[i] in part {
        assert Closed(whole, part.Keys);
        PathStaysInside(whole, part.Keys, p, i);
      }
      assert PathBetween(part, p, sha, c);
    }
  }

  /** The clone holds exactly one history if and only if every tag is inside that history. */
  lemma OneHistoryIffTagsInside(commits: Commits, refs: Refs, head: Head, sha: Sha)
    requires Sound(commits, refs, head) && sha in commits
    ensures (forall c :: Kept(commits, refs, sha, c) <==> c in Ancestors(commits, sha))
       <==> TagTargets(refs) <= Ancestors(commits, sha)
  {
    if TagTargets(refs) <= Ancestors(commits, sha) {
      forall c | Kept(commits, refs, sha, c) ensures c in Ancestors(commits, sha) {
        var r :| r in {sha} + TagTargets(refs) && Reaches(commits, r, c);
        if r != sha {
          ReachesTrans(commits, sha, r, c);
        }
      }
      assert sha in {sha} + TagTargets(refs);
    }
    if forall c :: Kept(commits, refs, sha, c) <==> c in Ancestors(commits, sha) {
      forall t | t in TagTargets(refs) ensures t in Ancestors(commits, sha) {
        ReachesSelf(commits, t);
        assert t in {sha} + TagTargets(refs);
        assert Kept(commits, refs, sha, t);
      }
    }
  }

  /** A tag on a later commit keeps that commit in the clone. */
  lemma LaterTagIsKept(earlier: Sha, later: Sha, tag: string)
    requires earlier != later
    ensures var commits, refs := map[earlier := {}, later := {earlier}], map[Tag(tag) := later];
            && Sound(commits, refs, Detached(earlier))
            && Kept(commits, refs, earlier, later) && later !in Ancestors(commits, earlier)
  {
    var commits: Commits, refs := map[earlier := {}, later := {earlier}], map[Tag(tag) := later];
    assert refs[Tag(tag)] == later && later in {earlier} + TagTargets(refs);
    ReachesSelf(commits, later);
    assert Closed(commits, {earlier});
    if Reaches(commits, earlier, later) {
      ClosedContainsReachable(commits, {earlier}, earlier, later);
    }
  }

  /** However much history is added later, with tags left alone, the clone is the same. */
  lemma LaterHistoryIsInvisible(earlier: Commits, later: Commits, refs: Refs, head: Head, laterRefs: Refs, sha: Sha,
                                c: Sha)
    requires Sound(earlier, refs, head) && sha in earlier
    requires forall c :: c in earlier ==> c in later && later[c] == earlier[c]
    requires Tags(laterRefs) == Tags(refs)
    ensures Kept(earlier, refs, sha, c) <==> Kept(later, laterRefs, sha, c)
  {
    SameTagsSameTargets(refs, laterRefs);
    forall r | r in {sha} + TagTargets(refs) ensures Reaches(earlier, r, c) <==> Reaches(later, r, c) {
      PartKeepsAncestors(earlier, later, r);
    }
    if Kept(later, laterRefs, sha, c) {
      var r :| r in {sha} + TagTargets(refs) && Reaches(later, r, c);
      assert Closed(later, earlier.Keys);
      ClosedContainsReachable(later, earlier.Keys, r, c);
    }
  }

  lemma SameTagsSameTargets(a: Refs, b: Refs)
    requires Tags(a) == Tags(b)
    ensures TagTargets(a) == TagTargets(b)
  {
    forall n | n in Tags(a) ensures n in a && n in b && a[n] == b[n] {
      assert Tags(a)[n] == Tags(b)[n];
    }
    assert forall n :: n in a && n.Tag? ==> n in Tags(a);
    assert forall n :: n in b && n.Tag? ==> n in Tags(b);
  }

  /** Pruning at an outer commit first changes nothing about what an ancestor and the tags hold. */
  lemma KeptThroughMiddle(direct: Commits, refs: Refs, middle: Commits, outer: Sha, inner: Sha, c: Sha)
    requires forall c :: c in middle ==> c in direct && middle[c] == direct[c]
    requires forall c :: c in middle ==> middle[c] <= middle.Keys
    requires forall c :: c in middle <==> Kept(direct, refs, outer, c)
    requires inner in Ancestors(direct, outer) && forall t :: t in TagTargets(refs) ==> t in direct
    ensures Kept(middle, refs, inner, c) <==> Kept(direct, refs, inner, c)
  {
    assert outer in {outer} + TagTargets(refs);
    forall r | r in {inner} + TagTargets(refs)
      ensures r in middle && (Reaches(middle, r, c) <==> Reaches(direct, r, c))
    {
      if r != inner {
        ReachesSelf(direct, r);
        assert r in {outer} + TagTargets(refs);
      }
      assert Kept(direct, refs, outer, r);
      PartKeepsAncestors(middle, direct, r);
    }
    if Kept(direct, refs, inner, c) {
      var r :| r in {inner} + TagTargets(refs) && Reaches(direct, r, c);
      assert Closed(middle, middle.Keys);
      ClosedContainsReachable(middle, middle.Keys, r, c);
    }
  }

  /**
   A gate inside a gate: pruning at an outer commit and then, in that clone, at one of its
   ancestors leaves what pruning at the ancestor alone leaves; and the commit an inner gate
   looks up on `main` is one the whole repository has in that ancestor's history.
   */
  method NestedGate(source: Repository, outer: Sha, inner: Sha) returns (tree: Repository)
    requires source.Valid() && outer in source.commits && inner in Ancestors(source.commits, outer)
    ensures tree.Valid()
    ensures forall c :: c in tree.commits <==> Kept(source.commits, source.refs, inner, c)
    ensures forall matching ::
      Candidates(tree.commits, tree.refs, "main", matching) == Ancestors(source.commits, inner) * matching
  {
    assert outer in {outer} + TagTargets(source.refs);
    assert Kept(source.commits, source.refs, outer, inner);
    var middle := GateAtItsOwnTree(source, outer);
    tree := GateAtItsOwnTree(middle, inner);
    SameTagsSameTargets(source.refs, middle.refs);
    forall c ensures Kept(middle.commits, source.refs, inner, c) <==> Kept(source.commits, source.refs, inner, c) {
      KeptThroughMiddle(source.commits, source.refs, middle.commits, outer, inner, c);
    }
    PartKeepsAncestors(middle.commits, source.commits, inner);
  }
}
