/**
 The working tree the self-test plants violations in: files and directories, the two kinds
 of plant, and their restores.
 */
module WorkTree {
  /** Path components below the repository root. */
  type Path = seq<string>

  datatype Tree = Tree(files: map<Path, string>, dirs: set<Path>)

  datatype Action = Edit(rel: Path, old_: string, new_: string) | Create(rel: Path, content: string)

  datatype Restore = WriteBack(path: Path, original: string) | Undo(path: Path)

  /** `Refused` is the plant's own exit; `Raised` is any other exception. */
  datatype Applied = Planted(tree: Tree, restore: Restore) | Refused | Raised

  datatype Restored = Restored(tree: Tree) | Failed

  predicate Below(d: Path, p: Path) {
    |d| < |p| && d == p[..|d|]
  }

  /** Every parent of a file or directory is a directory, and nothing is both. */
  ghost predicate Valid(t: Tree) {
    && t.files.Keys !! t.dirs
    && [] !in t.files && [] !in t.dirs
    && (forall p, k :: p in t.files.Keys + t.dirs && 0 < k < |p| ==> p[..k] in t.dirs)
  }

  /** A directory with nothing in it. */
  predicate Empty(t: Tree, d: Path) {
    forall p :: p in t.files.Keys + t.dirs ==> !Below(d, p)
  }

  predicate Contains(text: string, old_: string) {
    old_ <= text || (text != "" && Contains(text[1..], old_))
  }

  function ReplaceFirst(text: string, old_: string, new_: string): string {
    if old_ <= text then new_ + text[|old_|..]
    else if text == "" then ""
    else [text[0]] + ReplaceFirst(text[1..], old_, new_)
  }

  function Parents(p: Path): set<Path> {
    set k | 0 < k < |p| :: p[..k]
  }

  function Apply(t: Tree, action: Action): Applied {
    match action
    case Edit(rel, old_, new_) =>
      if rel !in t.files then Raised
      else if !Contains(t.files[rel], old_) then Refused
      else Planted(t.(files := t.files[rel := ReplaceFirst(t.files[rel], old_, new_)]), WriteBack(rel, t.files[rel]))
    case Create(rel, content) =>
      if rel == [] || rel in t.dirs || Parents(rel) * t.files.Keys != {} then Raised
      else Planted(Tree(t.files[rel := content], t.dirs + Parents(rel)), Undo(rel))
  }

  /** Remove the empty parents of `p`, from length `k` down. */
  function Sweep(t: Tree, p: Path, k: nat): Tree
    requires k < |p| || k == 0
    decreases k
  {
    if k == 0 then t
    else Sweep(if p[..k] in t.dirs && Empty(t, p[..k]) then t.(dirs := t.dirs - {p[..k]}) else t, p, k - 1)
  }

  function Undone(t: Tree, restore: Restore): Restored {
    match restore
    case WriteBack(p, original) =>
      if p == [] || p in t.dirs || !(Parents(p) <= t.dirs) then Failed
      else Restored(t.(files := t.files[p := original]))
    case Undo(p) =>
      if p == [] || p in t.dirs then Failed
      else Restored(Sweep(t.(files := t.files - {p}), p, |p| - 1))
  }

  // ---------------------------------------------------------------- restores undo plants

  /** A created file can be taken away without a trace: it was not there, nor an empty parent. */
  predicate Traceless(t: Tree, rel: Path) {
    && rel !in t.files
    && forall k :: 0 < k < |rel| && rel[..k] in t.dirs ==> !Empty(t, rel[..k])
  }

  lemma {:induction false} SweepOnlyRemoves(t: Tree, p: Path, k: nat)
    requires k < |p| || k == 0
    ensures Sweep(t, p, k).files == t.files && Sweep(t, p, k).dirs <= t.dirs
    decreases k
  {
    if k > 0 {
      SweepOnlyRemoves(if p[..k] in t.dirs && Empty(t, p[..k]) then t.(dirs := t.dirs - {p[..k]}) else t, p, k - 1);
    }
  }

  /** Sweeping leaves the tree alone exactly when no parent up to `k` is empty. */
  lemma {:induction false} SweepKeepsIff(t: Tree, p: Path, k: nat)
    requires k < |p| || k == 0
    ensures Sweep(t, p, k) == t <==> forall j :: 0 < j <= k && p[..j] in t.dirs ==> !Empty(t, p[..j])
  {
    if k > 0 {
      if p[..k] in t.dirs && Empty(t, p[..k]) {
        SweepOnlyRemoves(t.(dirs := t.dirs - {p[..k]}), p, k - 1);
      } else {
        SweepKeepsIff(t, p, k - 1);
      }
    }
  }

  function Grown(t: Tree, p: Path, k: nat): Tree {
    t.(dirs := t.dirs + set j | 0 < j <= k && j < |p| :: p[..j])
  }

  /** Parents that planting had to create are swept away again. */
  lemma {:induction false} SweepTakesBackGrowth(t: Tree, p: Path, k: nat)
    requires Valid(t) && p !in t.files && (k < |p| || k == 0)
    ensures Sweep(Grown(t, p, k), p, k) == Sweep(t, p, k)
  {
    if k > 0 {
      var d, grown := p[..k], Grown(t, p, k);
      if d in t.dirs {
        forall j | 0 < j <= k ensures p[..j] in t.dirs {
          assert j < k ==> p[..j] == d[..j];
        }
        assert grown == t;
      } else {
        forall q | q in grown.files.Keys + grown.dirs ensures !Below(d, q) {
          assert q in t.files.Keys + t.dirs ==> |d| >= |q| || q[..|d|] in t.dirs;
        }
        assert grown.dirs - {d} == Grown(t, p, k - 1).dirs;
        SweepTakesBackGrowth(t, p, k - 1);
      }
    }
  }

  /** Editing and writing back is the identity, wherever the edit applies. */
  lemma EditIsUndone(t: Tree, rel: Path, old_: string, new_: string)
    requires Valid(t) && Apply(t, Edit(rel, old_, new_)).Planted?
    ensures var p := Apply(t, Edit(rel, old_, new_)); Undone(p.tree, p.restore) == Restored(t)
  {
    var p := Apply(t, Edit(rel, old_, new_));
    assert p.tree.files[rel := t.files[rel]] == t.files;
  }

  /** Creating and undoing is the identity exactly when the path was absent and no parent was empty. */
  lemma CreateIsUndoneIff(t: Tree, rel: Path, content: string)
    requires Valid(t) && Apply(t, Create(rel, content)).Planted?
    ensures var p := Apply(t, Create(rel, content)); Undone(p.tree, p.restore) == Restored(t) <==> Traceless(t, rel)
  {
    var p := Apply(t, Create(rel, content));
    var n := |rel| - 1;
    var swept := p.tree.(files := p.tree.files - {rel});
    assert Undone(p.tree, p.restore) == Restored(Sweep(swept, rel, n)) by {
      assert rel !in Parents(rel);
    }
    SweepOnlyRemoves(swept, rel, n);
    if rel !in t.files {
      assert swept.files == t.files;
      assert swept == Grown(t, rel, n);
      SweepTakesBackGrowth(t, rel, n);
      SweepKeepsIff(t, rel, n);
    }
  }

  /** An empty directory is swept away with the file that was created in it. */
  lemma EmptyParentIsLost(d: string, f: string, content: string)
    ensures var t := Tree(map[], {[d]});
            && Valid(t) && Apply(t, Create([d, f], content)).Planted?
            && var p := Apply(t, Create([d, f], content));
               Undone(p.tree, p.restore) != Restored(t)
  {
    var t, rel := Tree(map[], {[d]}), [d, f];
    assert rel[..1] == [d];
    assert forall q :: q in Parents(rel) ==> |q| == 1;
    assert Valid(t) && Empty(t, [d]);
    CreateIsUndoneIff(t, rel, content);
  }

  /** What each of the two plants needs for its restore to be exact. */
  predicate Restorable(t: Tree, action: Action) {
    action.Create? && Apply(t, action).Planted? ==> Traceless(t, action.rel)
  }

  lemma RestorablePlantIsUndone(t: Tree, action: Action)
    requires Valid(t) && Apply(t, action).Planted?
    ensures var p := Apply(t, action); Undone(p.tree, p.restore) == Restored(t) <==> Restorable(t, action)
  {
    match action
    case Edit(rel, old_, new_) => EditIsUndone(t, rel, old_, new_);
    case Create(rel, content) => CreateIsUndoneIff(t, rel, content);
  }

  /** An edit puts the new text where the old text first stood and changes nothing else. */
  lemma {:induction false} EditReplacesFirst(text: string, old_: string, new_: string)
    returns (before: string, after: string)
    requires Contains(text, old_)
    ensures text == before + old_ + after && ReplaceFirst(text, old_, new_) == before + new_ + after
    ensures forall i :: 0 <= i < |before| ==> !(old_ <= text[i..])
  {
    if old_ <= text {
      before, after := "", text[|old_|..];
    } else {
      var b, a := EditReplacesFirst(text[1..], old_, new_);
      before, after := [text[0]] + b, a;
      forall i | 0 <= i < |before| ensures !(old_ <= text[i..]) {
        assert text[i..] == if i == 0 then text else text[1..][i - 1..];
      }
    }
  }

  // ---------------------------------------------------------------- plants in plain terms

  /** `u` is the tree with the edit made where the old text first stands, or with the file created. */
  ghost predicate PlantedTree(t: Tree, action: Action, u: Tree) {
    match action
    case Edit(rel, old_, new_) =>
      rel in t.files && exists before, after ::
        && t.files[rel] == before + old_ + after && StartsFirst(t.files[rel], old_, |before|)
        && u == Tree(t.files[rel := before + new_ + after], t.dirs)
    case Create(rel, content) =>
      && rel != [] && rel !in t.dirs && (forall k :: 0 < k < |rel| ==> rel[..k] !in t.files)
      && u.files == t.files[rel := content]
      && forall d :: d in u.dirs <==> d in t.dirs || IsParent(d, rel)
  }

  /** The file to edit is there without the text to replace. */
  ghost predicate LacksText(t: Tree, action: Action) {
    action.Edit? && action.rel in t.files && forall i :: 0 <= i <= |t.files[action.rel]| ==>
      !(action.old_ <= t.files[action.rel][i..])
  }

  /** The text stands at `at` and nowhere before. */
  ghost predicate StartsFirst(text: string, old_: string, at: nat) {
    at <= |text| && old_ <= text[at..] && forall i :: 0 <= i < at ==> !(old_ <= text[i..])
  }

  predicate IsParent(d: Path, p: Path) {
    0 < |d| < |p| && d == p[..|d|]
  }

  /** The file can be written back, or what was created taken away. */
  ghost predicate CanRestore(r: Tree, action: Action) {
    && action.rel != [] && action.rel !in r.dirs
    && (action.Edit? ==> forall k :: 0 < k < |action.rel| ==> action.rel[..k] in r.dirs)
  }

  /**
   `after` is `r` with the text that `t` held written back; or without the created file, and without
   those of its parents that hold nothing but further such parents.
   */
  ghost predicate RestoredTree(t: Tree, action: Action, r: Tree, after: Tree) {
    match action
    case Edit(rel, _, _) => rel in t.files && after == Tree(r.files[rel := t.files[rel]], r.dirs)
    case Create(rel, _) =>
      && after.files == r.files - {rel}
      && forall d :: d in after.dirs
           <==> d in r.dirs && !(IsParent(d, rel) && HoldsOnlyParents(after.files, r.dirs, d, rel))
  }

  ghost predicate HoldsOnlyParents(files: map<Path, string>, dirs: set<Path>, d: Path, p: Path) {
    && (forall q :: q in files && |d| < |q| ==> q[..|d|] != d)
    && (forall q :: q in dirs && |d| < |q| && q[..|d|] == d ==> IsParent(q, p))
  }

  lemma {:induction false} ContainsIff(text: string, old_: string)
    ensures Contains(text, old_) <==> exists i :: 0 <= i <= |text| && old_ <= text[i..]
  {
    if old_ <= text {
      assert old_ <= text[0..];
    } else if text != "" {
      ContainsIff(text[1..], old_);
      if i :| 0 <= i <= |text| && old_ <= text[i..] {
        assert text[i..] == if i == 0 then text else text[1..][i - 1..];
      }
      if i :| 0 <= i <= |text[1..]| && old_ <= text[1..][i..] {
        assert text[1..][i..] == text[i + 1..];
      }
    }
  }

  lemma FirstStartIsUnique(text: string, old_: string, i: nat, j: nat)
    requires StartsFirst(text, old_, i) && StartsFirst(text, old_, j)
    ensures i == j
  {
  }

  lemma EditPlants(t: Tree, action: Action)
    requires action.Edit?
    ensures Apply(t, action).Refused? <==> LacksText(t, action)
    ensures Apply(t, action).Planted? ==> PlantedTree(t, action, Apply(t, action).tree)
    ensures forall u :: PlantedTree(t, action, u) ==> Apply(t, action).Planted? && Apply(t, action).tree == u
  {
    var rel, old_, new_ := action.rel, action.old_, action.new_;
    if rel in t.files {
      var text := t.files[rel];
      ContainsIff(text, old_);
      if Contains(text, old_) {
        var b, a := EditReplacesFirst(text, old_, new_);
        assert text[|b|..] == old_ + a && StartsFirst(text, old_, |b|);
        forall before, after | text == before + old_ + after && StartsFirst(text, old_, |before|)
          ensures before + new_ + after == ReplaceFirst(text, old_, new_)
        {
          FirstStartIsUnique(text, old_, |before|, |b|);
          assert before == text[..|b|] == b && after == text[|b| + |old_|..] == a;
        }
      } else {
        forall u ensures !PlantedTree(t, action, u) {
          forall before, after | text == before + old_ + after ensures !StartsFirst(text, old_, |before|) {
            assert old_ <= text[|before|..] ==> Contains(text, old_);
          }
        }
      }
    }
  }

  lemma ParentsAre(p: Path, d: Path)
    ensures d in Parents(p) <==> IsParent(d, p)
  {
  }

  lemma CreatePlants(t: Tree, action: Action)
    requires action.Create?
    ensures !Apply(t, action).Refused?
    ensures Apply(t, action).Planted? ==> PlantedTree(t, action, Apply(t, action).tree)
    ensures forall u :: PlantedTree(t, action, u) ==> Apply(t, action).Planted? && Apply(t, action).tree == u
  {
    var rel := action.rel;
    forall d ensures d in Parents(rel) <==> IsParent(d, rel) {
      ParentsAre(rel, d);
    }
    forall k | 0 < k < |rel| ensures rel[..k] in Parents(rel) {
      ParentsAre(rel, rel[..k]);
    }
    if Parents(rel) * t.files.Keys == {} {
      forall k | 0 < k < |rel| ensures rel[..k] !in t.files {
        assert rel[..k] !in Parents(rel) * t.files.Keys;
      }
    }
    forall u | PlantedTree(t, action, u) ensures Apply(t, action).Planted? && Apply(t, action).tree == u {
      assert Parents(rel) * t.files.Keys == {};
      assert u.dirs == t.dirs + Parents(rel);
    }
  }

  /** Planting makes exactly the planted tree, refuses exactly where the text is missing, and else raises. */
  lemma ApplyPlants(t: Tree, action: Action)
    ensures Apply(t, action).Refused? <==> LacksText(t, action)
    ensures Apply(t, action).Planted? ==> PlantedTree(t, action, Apply(t, action).tree)
    ensures forall u :: PlantedTree(t, action, u) ==> Apply(t, action).Planted? && Apply(t, action).tree == u
  {
    if action.Edit? {
      EditPlants(t, action);
    } else {
      CreatePlants(t, action);
    }
  }

  /** The directory `p[..j]` holds no file, and no directory but the next ones towards `p`, up to length `k`. */
  ghost predicate SweptClean(t: Tree, p: Path, j: nat, k: nat)
    requires j <= k <= |p|
  {
    && (forall q :: q in t.files ==> !Below(p[..j], q))
    && (forall q :: q in t.dirs && Below(p[..j], q) ==> |q| <= k && q == p[..|q|])
  }

  lemma {:induction false} SweepTakes(t: Tree, p: Path, k: nat, d: Path)
    requires k < |p| || k == 0
    ensures d in Sweep(t, p, k).dirs
       <==> d in t.dirs && !(0 < |d| <= k && d == p[..|d|] && SweptClean(t, p, |d|, k))
    decreases k
  {
    if k > 0 {
      var e := p[..k];
      var t' := if e in t.dirs && Empty(t, e) then t.(dirs := t.dirs - {e}) else t;
      SweepTakes(t', p, k - 1, d);
      if d != e && 0 < |d| < k && d == p[..|d|] {
        SweptCleanStep(t, p, |d|, k);
      }
      SweptCleanLast(t, p, k);
    }
  }

  lemma SweptCleanLast(t: Tree, p: Path, k: nat)
    requires 0 < k <= |p|
    ensures SweptClean(t, p, k, k) <==> Empty(t, p[..k])
  {
  }

  lemma SweptCleanStep(t: Tree, p: Path, j: nat, k: nat)
    requires 0 < j < k <= |p|
    ensures var e := p[..k];
            var t' := if e in t.dirs && Empty(t, e) then t.(dirs := t.dirs - {e}) else t;
            SweptClean(t', p, j, k - 1) <==> SweptClean(t, p, j, k)
  {
    var e := p[..k];
    assert e[..j] == p[..j] && Below(p[..j], e);
    if e in t.dirs && !Empty(t, e) {
      var q :| q in t.files.Keys + t.dirs && Below(e, q);
      assert q[..j] == q[..k][..j] == p[..j] && Below(p[..j], q);
    }
  }

  lemma UndoRestores(t: Tree, action: Action, r: Tree)
    requires action.Create?
    ensures Undone(r, Undo(action.rel)).Restored? <==> CanRestore(r, action)
    ensures CanRestore(r, action) ==> RestoredTree(t, action, r, Undone(r, Undo(action.rel)).tree)
  {
    if CanRestore(r, action) {
      var rel := action.rel;
      var bare, n := r.(files := r.files - {rel}), |rel| - 1;
      SweepOnlyRemoves(bare, rel, n);
      forall d ensures d in Sweep(bare, rel, n).dirs
        <==> d in r.dirs && !(IsParent(d, rel) && HoldsOnlyParents(bare.files, r.dirs, d, rel))
      {
        SweepTakes(bare, rel, n, d);
      }
    }
  }

  /** What is planted is what the restore is for. */
  lemma RestoreRestores(t: Tree, action: Action, r: Tree)
    requires Apply(t, action).Planted?
    ensures var restored := Undone(r, Apply(t, action).restore);
            && (restored.Restored? <==> CanRestore(r, action))
            && (restored.Restored? ==> RestoredTree(t, action, r, restored.tree))
  {
    var rel := action.rel;
    if action.Edit? {
      forall d ensures d in Parents(rel) <==> IsParent(d, rel) {
        ParentsAre(rel, d);
      }
      assert forall k :: 0 < k < |rel| ==> rel[..k] in Parents(rel);
    } else {
      UndoRestores(t, action, r);
    }
  }
}
