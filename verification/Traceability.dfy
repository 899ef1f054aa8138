/** Requirements traced to artifacts, requirements deferred, and the verdict over both. */
module Traceability {
  /** One scanned file: its path and the requirement ids it cites. */
  datatype File = File(rel: string, cited: set<string>)

  type Hits = map<string, set<string>>

  ghost predicate CitedBy(files: seq<File>, r: string, rel: string) {
    exists i :: 0 <= i < |files| && files[i].rel == rel && r in files[i].cited
  }

  ghost predicate Hit(hits: Hits, r: string, rel: string) {
    r in hits && rel in hits[r]
  }

  method NoteCitations(hits0: Hits, cited: set<string>, rel: string, valid: set<string>) returns (hits: Hits)
    requires forall r :: r in hits0 ==> hits0[r] != {}
    ensures forall r, f :: Hit(hits, r, f) <==> Hit(hits0, r, f) || (f == rel && r in cited && r in valid)
    ensures forall r :: r in hits ==> hits[r] != {}
  {
    hits := hits0;
    var todo := cited;
    while todo != {}
      invariant todo <= cited
      invariant forall r, f :: Hit(hits, r, f) <==> Hit(hits0, r, f) || (f == rel && r in cited - todo && r in valid)
      invariant forall r :: r in hits ==> hits[r] != {}
      decreases todo
    {
      var r :| r in todo;
      ghost var before := hits;
      if r in valid {
        hits := hits[r := (if r in hits then hits[r] else {}) + {rel}];
      }
      assert forall q, f :: Hit(hits, q, f) <==> Hit(before, q, f) || (q == r && f == rel && r in valid);
      assert forall q :: q in cited - (todo - {r}) <==> q in cited - todo || q == r;
      todo := todo - {r};
    }
  }

  /** A layer records exactly the defined requirements its files cite, each with those files. */
  method ScanMarkdown(files: seq<File>, valid: set<string>) returns (hits: Hits)
    ensures forall r, rel :: Hit(hits, r, rel) <==> r in valid && CitedBy(files, r, rel)
    ensures forall r :: r in hits <==> r in valid && exists rel :: CitedBy(files, r, rel)
  {
    hits := map[];
    for i := 0 to |files|
      invariant forall r, rel :: Hit(hits, r, rel) <==> r in valid && CitedBy(files[..i], r, rel)
      invariant forall r :: r in hits ==> hits[r] != {}
    {
      hits := NoteCitations(hits, files[i].cited, files[i].rel, valid);
      forall r, rel ensures CitedBy(files[..i + 1], r, rel)
                       <==> CitedBy(files[..i], r, rel) || (files[i].rel == rel && r in files[i].cited) {
        if CitedBy(files[..i], r, rel) {
          var j :| 0 <= j < i && files[..i][j].rel == rel && r in files[..i][j].cited;
          assert files[..i + 1][j] == files[j];
        }
        if files[i].rel == rel && r in files[i].cited {
          assert files[..i + 1][i] == files[i];
        }
      }
    }
    assert files[..|files|] == files;
    forall r | r in hits ensures r in valid && exists rel :: CitedBy(files, r, rel) {
      var rel :| rel in hits[r];
      assert Hit(hits, r, rel);
    }
    forall r, rel | r in valid && CitedBy(files, r, rel) ensures r in hits {
      assert Hit(hits, r, rel);
    }
  }

  function Traced(layers: seq<Hits>): set<string> {
    set i, r | 0 <= i < |layers| && r in layers[i] :: r
  }

  /**
   The verdict passes exactly when the traced and the deferred requirements are disjoint and
   are together the defined ones; so their numbers then add up.
   */
  method Verdict(valid: set<string>, layers: seq<Hits>, deferred: set<string>) returns (ok: bool)
    requires forall hits :: hits in layers ==> hits.Keys <= valid
    ensures ok <==> Traced(layers) !! deferred && Traced(layers) + deferred == valid
    ensures ok ==> |Traced(layers)| + |deferred| == |valid|
  {
    var traced: set<string> := {};
    for i := 0 to |layers|
      invariant traced == set j, r | 0 <= j < i && r in layers[j] :: r
      invariant traced <= valid
    {
      assert layers[i] in layers;
      traced := traced + layers[i].Keys;
    }
    var untracked := set r | r in valid && r !in traced && r !in deferred;
    var stale := set r | r in deferred && r in traced;
    var unknown := set r | r in deferred && r !in valid;
    ok := untracked == {} && stale == {} && unknown == {};
    if ok {
      forall r ensures r in traced + deferred <==> r in valid {
        assert r !in untracked && r !in unknown;
      }
      forall r | r in traced ensures r !in deferred {
        assert r !in stale;
      }
      assert |traced + deferred| == |traced| + |deferred|;
    } else if traced !! deferred {
      assert stale == {};
    }
  }
}
