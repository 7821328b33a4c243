/** What the analysis of a map means on the graph of maps: it is valid exactly
    when every map it reaches is, and may allocate exactly when it reaches a
    field that owns memory or a cycle. */
module SchemaProofs {
  import opened Schemas

  // ----- Walks -----

  ghost predicate Edge(g: Schema, m: nat, n: nat) {
    m < |g| && exists i :: 0 <= i < |g[m].fields| && Leads(g[m].fields[i], n)
  }

  ghost predicate Leads(f: Field, n: nat) {
    HasSubmap(f) && f.submap.id == n
  }

  /** A walk along submaps. */
  ghost predicate Walk(g: Schema, w: seq<nat>) {
    && w != [] && w[0] < |g| && (forall i :: 0 <= i < |w| - 1 ==> Edge(g, w[i], w[i + 1]))
  }

  ghost predicate WalkFrom(g: Schema, m: nat, w: seq<nat>) {
    Walk(g, w) && w[0] == m
  }

  ghost predicate Simple(w: seq<nat>) {
    forall i, j :: 0 <= i < j < |w| ==> w[i] != w[j]
  }

  ghost predicate Avoids(w: seq<nat>, s: set<nat>) {
    forall i :: 0 <= i < |w| ==> w[i] !in s
  }

  lemma {:induction false} WalkInSchema(g: Schema, w: seq<nat>, i: nat)
    requires Closed(g) && Walk(g, w) && i < |w|
    ensures w[i] < |g|
  {
    if 0 < i {
      assert Edge(g, w[i - 1], w[i]);
    }
  }

  lemma WalkTail(g: Schema, w: seq<nat>, k: nat)
    requires Closed(g) && Walk(g, w) && k < |w|
    ensures Walk(g, w[k..])
  {
    WalkInSchema(g, w, k);
    forall i | 0 <= i < |w[k..]| - 1 ensures Edge(g, w[k..][i], w[k..][i + 1]) {
      assert Edge(g, w[k + i], w[k + i + 1]);
    }
  }

  lemma WalkCons(g: Schema, m: nat, w: seq<nat>)
    requires Walk(g, w) && Edge(g, m, w[0])
    ensures Walk(g, [m] + w)
  {
    var v := [m] + w;
    forall i | 0 <= i < |v| - 1 ensures Edge(g, v[i], v[i + 1]) {
      assert i > 0 ==> Edge(g, w[i - 1], w[i]);
    }
  }

  lemma WalkJoin(g: Schema, v: seq<nat>, w: seq<nat>)
    requires Walk(g, v) && Walk(g, w) && Edge(g, v[|v| - 1], w[0])
    ensures Walk(g, v + w)
  {
    var u := v + w;
    forall i | 0 <= i < |u| - 1 ensures Edge(g, u[i], u[i + 1]) {
      if i < |v| - 1 {
        assert Edge(g, v[i], v[i + 1]);
      } else if |v| <= i {
        assert Edge(g, w[i - |v|], w[i - |v| + 1]);
      }
    }
  }

  lemma WalkTake(g: Schema, w: seq<nat>, k: nat)
    requires Walk(g, w) && 0 < k <= |w|
    ensures Walk(g, w[..k])
  {
    forall i | 0 <= i < k - 1 ensures Edge(g, w[..k][i], w[..k][i + 1]) {
      assert Edge(g, w[i], w[i + 1]);
    }
  }

  // ----- One step of the analysis -----

  /** A valid analysis covers every field. */
  lemma ValidFields(g: Schema, m: nat, s: set<nat>)
    requires Closed(g) && m < |g| && m !in s
    ensures Analyze(g, m, s).valid <==> forall j :: 0 <= j < |g[m].fields| ==> FieldValid(g, m, j, s + {m})
  {
    hide FieldValid, FieldAllocates, FieldAdopts;
    var t := s + {m};
    var r := FirstInvalid(g, m, 0, t);
    assert Analyze(g, m, s).valid <==> r == |g[m].fields|;
    assert r < |g[m].fields| ==> !FieldValid(g, m, r, t);
  }

  lemma ValidSub(g: Schema, m: nat, s: set<nat>, n: nat)
    requires Closed(g) && m < |g| && m !in s && Analyze(g, m, s).valid && Edge(g, m, n) && n !in s + {m}
    ensures n < |g| && Analyze(g, n, s + {m}).valid
  {
    hide Analyze, FieldOk;
    ValidFields(g, m, s);
    var i :| 0 <= i < |g[m].fields| && Leads(g[m].fields[i], n);
    var t := s + {m};
    assert FieldValid(g, m, i, t);
    assert Sub(g, g[m].fields[i], t).valid;
  }

  lemma ValidLocally(g: Schema, m: nat, s: set<nat>)
    requires Closed(g) && m < |g| && m !in s && Analyze(g, m, s).valid
    ensures LocallyOk(g, m)
  {
    hide Analyze, FieldOk, Sub;
    ValidFields(g, m, s);
    forall i | 0 <= i < |g[m].fields| ensures FieldOk(g, g[m], g[m].fields[i]) {
      assert FieldValid(g, m, i, s + {m});
    }
  }

  // ----- Validity -----

  /** The last place a walk visits its first map. */
  lemma LastVisit(w: seq<nat>) returns (k: nat)
    requires w != []
    ensures k < |w| && w[k] == w[0] && forall i :: k < i < |w| ==> w[i] != w[0]
  {
    k := |w| - 1;
    while w[k] != w[0]
      invariant 0 <= k < |w| && forall i :: k < i < |w| ==> w[i] != w[0]
      decreases k
    {
      k := k - 1;
    }
  }

  lemma {:induction false} ValidReaches(g: Schema, m: nat, s: set<nat>, w: seq<nat>)
    requires Closed(g) && m < |g| && Analyze.requires(g, m, s) && Analyze(g, m, s).valid
    requires WalkFrom(g, m, w) && Avoids(w, s)
    ensures w[|w| - 1] < |g| && LocallyOk(g, w[|w| - 1])
    decreases Ids(g) - s
  {
    hide Analyze, FieldOk, LocallyOk, Edge;
    var k := LastVisit(w);
    if k == |w| - 1 {
      ValidLocally(g, m, s);
    } else {
      var rest := w[k + 1..];
      assert Edge(g, w[k], w[k + 1]);
      WalkTail(g, w, k + 1);
      ValidSub(g, m, s, w[k + 1]);
      Deeper(g, m, s);
      ValidReaches(g, w[k + 1], s + {m}, rest);
    }
  }

  lemma {:induction false} ReachesValid(g: Schema, m: nat, s: set<nat>)
    requires Closed(g) && m < |g| && m !in s
    requires forall w :: WalkFrom(g, m, w) && Avoids(w, s) ==> w[|w| - 1] < |g| && LocallyOk(g, w[|w| - 1])
    ensures Analyze(g, m, s).valid
    decreases Ids(g) - s
  {
    hide Analyze, FieldOk, Edge;
    var t := s + {m};
    assert WalkFrom(g, m, [m]) && Avoids([m], s);
    assert LocallyOk(g, [m][0]);
    ValidFields(g, m, s);
    Deeper(g, m, s);
    forall j | 0 <= j < |g[m].fields| ensures FieldValid(g, m, j, t) {
      var f := g[m].fields[j];
      assert FieldOk(g, g[m], f);
      if HasSubmap(f) && f.submap.id !in t {
        var n := f.submap.id;
        FieldEdge(g, m, j);
        forall w | WalkFrom(g, n, w) && Avoids(w, t) ensures w[|w| - 1] < |g| && LocallyOk(g, w[|w| - 1]) {
          WalkCons(g, m, w);
          var v := [m] + w;
          assert WalkFrom(g, m, v) && Avoids(v, s);
          assert v[|v| - 1] == w[|w| - 1];
        }
        ReachesValid(g, n, t);
      }
    }
  }

  lemma FieldEdge(g: Schema, m: nat, j: nat)
    requires Closed(g) && m < |g| && j < |g[m].fields| && HasSubmap(g[m].fields[j])
    ensures Edge(g, m, g[m].fields[j].submap.id) && g[m].fields[j].submap.id < |g|
  {
    assert Leads(g[m].fields[j], g[m].fields[j].submap.id);
  }

  /** A map is valid exactly when every map reachable from it through object and
      object-array fields has only fields that are in order. */
  lemma ValidMeans(g: Schema, m: nat)
    requires Closed(g) && m < |g|
    ensures Analyze(g, m, {}).valid <==> forall w :: WalkFrom(g, m, w) ==> w[|w| - 1] < |g| && LocallyOk(g, w[|w| - 1])
  {
    hide Analyze, LocallyOk, Edge;
    if Analyze(g, m, {}).valid {
      forall w | WalkFrom(g, m, w) ensures w[|w| - 1] < |g| && LocallyOk(g, w[|w| - 1]) {
        ValidReaches(g, m, {}, w);
      }
    } else if forall w :: WalkFrom(g, m, w) ==> w[|w| - 1] < |g| && LocallyOk(g, w[|w| - 1]) {
      ReachesValid(g, m, {});
    }
  }

  // ----- May allocate -----

  ghost predicate OwnsAt(g: Schema, m: nat) {
    m < |g| && exists i :: 0 <= i < |g[m].fields| && OwnsMemory(g[m].fields[i])
  }

  ghost predicate SubAllocates(g: Schema, n: nat, t: set<nat>)
    requires Closed(g)
  {
    n in t || (n < |g| && Analyze(g, n, t).mayAllocate)
  }

  lemma FieldAllocatesMeans(g: Schema, m: nat, j: nat, t: set<nat>)
    requires Closed(g) && m < |g| && j < |g[m].fields|
    ensures FieldAllocates(g, m, j, t) <==>
            OwnsMemory(g[m].fields[j]) || (HasSubmap(g[m].fields[j]) && SubAllocates(g, g[m].fields[j].submap.id, t))
  {
    hide Analyze;
  }

  /** One step of the analysis of a valid map. */
  lemma AllocatesStep(g: Schema, m: nat, s: set<nat>)
    requires Closed(g) && m < |g| && m !in s && Analyze(g, m, s).valid
    ensures Analyze(g, m, s).mayAllocate <==>
            OwnsAt(g, m) || exists n :: Edge(g, m, n) && SubAllocates(g, n, s + {m})
  {
    hide FieldValid, FieldAllocates, FieldAdopts, SubAllocates;
    var t := s + {m};
    var a := Analyze(g, m, s);
    assert a.mayAllocate <==> exists j :: 0 <= j < |g[m].fields| && FieldAllocates(g, m, j, t);
    if a.mayAllocate {
      var j :| 0 <= j < |g[m].fields| && FieldAllocates(g, m, j, t);
      FieldAllocatesMeans(g, m, j, t);
      if !OwnsMemory(g[m].fields[j]) {
        FieldEdge(g, m, j);
      }
    }
    if OwnsAt(g, m) {
      var j :| 0 <= j < |g[m].fields| && OwnsMemory(g[m].fields[j]);
      FieldAllocatesMeans(g, m, j, t);
    }
    if n :| Edge(g, m, n) && SubAllocates(g, n, t) {
      var j :| 0 <= j < |g[m].fields| && Leads(g[m].fields[j], n);
      FieldAllocatesMeans(g, m, j, t);
    }
  }

  /** The walk ends at a map that owns memory, or that leads back into the walk
      or to one of the maps `s`. */
  ghost predicate Ends(g: Schema, w: seq<nat>, s: set<nat>)
    requires w != []
  {
    OwnsAt(g, w[|w| - 1]) || exists n :: Edge(g, w[|w| - 1], n) && (n in s || n in w)
  }

  ghost predicate Witness(g: Schema, m: nat, s: set<nat>, w: seq<nat>) {
    WalkFrom(g, m, w) && Simple(w) && Avoids(w, s) && Ends(g, w, s)
  }

  lemma {:induction false} WitnessAllocates(g: Schema, m: nat, s: set<nat>, w: seq<nat>)
    requires Closed(g) && m < |g| && m !in s && Analyze(g, m, s).valid && Witness(g, m, s, w)
    ensures Analyze(g, m, s).mayAllocate
    decreases |w|
  {
    hide Analyze, Edge, OwnsAt;
    var t := s + {m};
    AllocatesStep(g, m, s);
    if |w| == 1 {
      if !OwnsAt(g, m) {
        var n :| Edge(g, m, n) && (n in s || n in w);
        assert SubAllocates(g, n, t);
      }
    } else {
      var n, rest := w[1], w[1..];
      assert Edge(g, w[0], w[1]);
      WalkTail(g, w, 1);
      ValidSub(g, m, s, n);
      TailEnds(g, w, s);
      WitnessAllocates(g, n, t, rest);
      assert SubAllocates(g, n, t);
    }
  }

  lemma TailEnds(g: Schema, w: seq<nat>, s: set<nat>)
    requires 1 < |w| && Simple(w) && Avoids(w, s) && Ends(g, w, s)
    ensures Simple(w[1..]) && Avoids(w[1..], s + {w[0]}) && Ends(g, w[1..], s + {w[0]})
  {
    hide Edge, OwnsAt;
    var v := w[1..];
    assert v[|v| - 1] == w[|w| - 1];
    if !OwnsAt(g, w[|w| - 1]) {
      var n :| Edge(g, w[|w| - 1], n) && (n in s || n in w);
      assert n in s + {w[0]} || n in v;
    }
  }

  lemma {:induction false} AllocatesWitness(g: Schema, m: nat, s: set<nat>) returns (w: seq<nat>)
    requires Closed(g) && m < |g| && m !in s && Analyze(g, m, s).valid && Analyze(g, m, s).mayAllocate
    ensures Witness(g, m, s, w)
    decreases Ids(g) - s
  {
    hide Analyze, Edge, OwnsAt;
    var t := s + {m};
    AllocatesStep(g, m, s);
    w := [m];
    if !OwnsAt(g, m) {
      var n :| Edge(g, m, n) && SubAllocates(g, n, t);
      if n !in t {
        ValidSub(g, m, s, n);
        Deeper(g, m, s);
        var v := AllocatesWitness(g, n, t);
        WalkCons(g, m, v);
        w := [m] + v;
        ConsEnds(g, m, v, s);
      }
    }
  }

  lemma ConsEnds(g: Schema, m: nat, v: seq<nat>, s: set<nat>)
    requires v != [] && m !in s && Simple(v) && Avoids(v, s + {m}) && Ends(g, v, s + {m})
    ensures var w := [m] + v; Simple(w) && Avoids(w, s) && Ends(g, w, s)
  {
    hide Edge, OwnsAt;
    var w := [m] + v;
    assert w[|w| - 1] == v[|v| - 1];
    if !OwnsAt(g, v[|v| - 1]) {
      var n :| Edge(g, v[|v| - 1], n) && (n in s + {m} || n in v);
      assert n in s || n in w;
    }
  }

  /** The walk visits some map twice: it goes round a cycle. */
  ghost predicate Repeats(w: seq<nat>) {
    exists i, j :: 0 <= i < j < |w| && w[i] == w[j]
  }

  /** A walk from `m` that meets `s` or repeats itself, or that ends at a map that
      owns memory, leads to a witness. */
  lemma WalkWitness(g: Schema, m: nat, s: set<nat>, w: seq<nat>) returns (v: seq<nat>)
    requires Closed(g) && m !in s && WalkFrom(g, m, w)
    requires OwnsAt(g, w[|w| - 1]) || Repeats(w) || exists i :: 0 <= i < |w| && w[i] in s
    ensures Witness(g, m, s, v)
  {
    hide Edge, OwnsAt;
    var k := 1;
    while k < |w| && w[k] !in s && w[k] !in w[..k]
      invariant 1 <= k <= |w| && Avoids(w[..k], s) && Simple(w[..k])
    {
      k := k + 1;
    }
    v := w[..k];
    WalkTake(g, w, k);
    if k < |w| {
      assert Edge(g, w[k - 1], w[k]);
    } else {
      assert v == w;
    }
  }

  /** A valid map may allocate exactly when a walk along its submaps reaches a
      field that owns memory, or goes round a cycle. */
  lemma MayAllocateMeans(g: Schema, m: nat)
    requires Closed(g) && m < |g| && Analyze(g, m, {}).valid
    ensures Analyze(g, m, {}).mayAllocate <==>
            exists w :: WalkFrom(g, m, w) && (OwnsAt(g, w[|w| - 1]) || Repeats(w))
  {
    hide Analyze, Edge, OwnsAt;
    if Analyze(g, m, {}).mayAllocate {
      var v := AllocatesWitness(g, m, {});
      if !OwnsAt(g, v[|v| - 1]) {
        var n :| Edge(g, v[|v| - 1], n) && n in v;
        StepWalk(g, v, n);
        var i :| 0 <= i < |v| && v[i] == n;
        assert (v + [n])[i] == (v + [n])[|v|];
        assert WalkFrom(g, m, v + [n]) && Repeats(v + [n]);
      }
    }
    if w :| WalkFrom(g, m, w) && (OwnsAt(g, w[|w| - 1]) || Repeats(w)) {
      var v := WalkWitness(g, m, {}, w);
      WitnessAllocates(g, m, {}, v);
    }
  }

  lemma StepWalk(g: Schema, w: seq<nat>, n: nat)
    requires Closed(g) && Walk(g, w) && Edge(g, w[|w| - 1], n)
    ensures Walk(g, w + [n])
  {
    EdgeInSchema(g, w[|w| - 1], n);
    assert Walk(g, [n]);
    WalkJoin(g, w, [n]);
  }

  lemma EdgeInSchema(g: Schema, m: nat, n: nat)
    requires Closed(g) && Edge(g, m, n)
    ensures n < |g|
  {
  }

  /** Whether a submap may allocate does not depend on the walk of ancestors that
      led to it: below any such walk the analysis says what a fresh one does. */
  lemma AncestorsIrrelevant(g: Schema, a: seq<nat>, n: nat)
    requires Closed(g) && Walk(g, a) && Edge(g, a[|a| - 1], n) && Analyze(g, a[0], {}).valid
    ensures n < |g| && Analyze(g, n, {}).valid
    ensures SubAllocates(g, n, Elements(a)) <==> Analyze(g, n, {}).mayAllocate
  {
    hide Analyze, Edge, OwnsAt;
    ValidBelow(g, a, n);
    MayAllocateMeans(g, n);
    if n in a {
      BackWalk(g, a, n, [n]);
    } else {
      var s := Elements(a);
      if Analyze(g, n, s).mayAllocate {
        var v := AllocatesWitness(g, n, s);
        WitnessFresh(g, a, n, v);
      }
      if Analyze(g, n, {}).mayAllocate {
        var w := AllocatesWitness(g, n, {});
        FreshWitness(g, n, s, w);
      }
    }
  }

  /** What a valid map reaches is valid, by itself and below its ancestors. */
  lemma ValidBelow(g: Schema, a: seq<nat>, n: nat)
    requires Closed(g) && Walk(g, a) && Edge(g, a[|a| - 1], n) && Analyze(g, a[0], {}).valid
    ensures n < |g| && Analyze(g, n, {}).valid && (n !in Elements(a) ==> Analyze(g, n, Elements(a)).valid)
  {
    hide Analyze, LocallyOk, Edge;
    EdgeInSchema(g, a[|a| - 1], n);
    ValidMeans(g, a[0]);
    ValidMeans(g, n);
    forall w | WalkFrom(g, n, w) ensures w[|w| - 1] < |g| && LocallyOk(g, w[|w| - 1]) {
      WalkJoin(g, a, w);
      assert WalkFrom(g, a[0], a + w) && (a + w)[|a + w| - 1] == w[|w| - 1];
    }
    if n !in Elements(a) {
      ReachesValid(g, n, Elements(a));
    }
  }

  /** From an ancestor a walk leads back to the submap. */
  lemma BackWalk(g: Schema, a: seq<nat>, n: nat, v: seq<nat>)
    requires Closed(g) && Walk(g, a) && Edge(g, a[|a| - 1], n) && WalkFrom(g, n, v)
    requires v[|v| - 1] in a || exists x :: Edge(g, v[|v| - 1], x) && x in a
    ensures exists w :: WalkFrom(g, n, w) && Repeats(w)
  {
    hide Edge;
    var u := v;
    if v[|v| - 1] !in a {
      var x :| Edge(g, v[|v| - 1], x) && x in a;
      StepWalk(g, v, x);
      u := v + [x];
    }
    var k :| 0 <= k < |a| && a[k] == u[|u| - 1];
    WalkTail(g, a, k);
    StepWalk(g, a[k..], n);
    var back := (a[k..] + [n])[1..];
    WalkTail(g, a[k..] + [n], 1);
    assert Edge(g, (a[k..] + [n])[0], (a[k..] + [n])[1]);
    WalkJoin(g, u, back);
    var w := u + back;
    assert w[0] == n && w[|w| - 1] == n && 0 < |w| - 1;
    assert WalkFrom(g, n, w) && Repeats(w);
  }

  lemma WitnessFresh(g: Schema, a: seq<nat>, n: nat, v: seq<nat>)
    requires Closed(g) && Walk(g, a) && Edge(g, a[|a| - 1], n) && Witness(g, n, Elements(a), v)
    ensures exists w :: WalkFrom(g, n, w) && (OwnsAt(g, w[|w| - 1]) || Repeats(w))
  {
    hide Edge, OwnsAt;
    if !OwnsAt(g, v[|v| - 1]) {
      var x :| Edge(g, v[|v| - 1], x) && (x in Elements(a) || x in v);
      if x in a {
        BackWalk(g, a, n, v);
      } else {
        StepWalk(g, v, x);
        var i :| 0 <= i < |v| && v[i] == x;
        assert (v + [x])[i] == (v + [x])[|v|];
        assert WalkFrom(g, n, v + [x]) && Repeats(v + [x]);
      }
    }
  }

  lemma FreshWitness(g: Schema, n: nat, s: set<nat>, w: seq<nat>)
    requires Closed(g) && n < |g| && n !in s && Witness(g, n, {}, w) && Analyze(g, n, s).valid
    ensures Analyze(g, n, s).mayAllocate
  {
    hide Analyze, Edge, OwnsAt;
    var u := w;
    if !OwnsAt(g, w[|w| - 1]) {
      var x :| Edge(g, w[|w| - 1], x) && x in w;
      StepWalk(g, w, x);
      u := w + [x];
      var i :| 0 <= i < |w| && w[i] == x;
      assert u[i] == u[|w|];
    }
    var v := WalkWitness(g, n, s, u);
    WitnessAllocates(g, n, s, v);
  }

  /** The bit that a valid map's mask has for a field says what a fresh analysis
      of its submap says. */
  lemma AdoptBitIsFresh(g: Schema, m: nat, j: nat)
    requires Closed(g) && m < |g| && Analyze(g, m, {}).valid && j < |g[m].fields| && |g[m].fields| <= MASK_BITS
    ensures var f := g[m].fields[j];
            j in Analyze(g, m, {}).adoptMask <==> AlwaysAdopts(f) || (HasSubmap(f) && Fresh(g, f.submap).mayAllocate)
  {
    hide FieldOk, Edge, Sub, FirstInvalid;
    var f, t := g[m].fields[j], {} + {m};
    MaskBit(g, m, j);
    if HasSubmap(f) {
      FieldEdge(g, m, j);
      var n := f.submap.id;
      assert Walk(g, [m]) && Elements([m]) == {m} == t;
      AncestorsIrrelevant(g, [m], n);
      SubIs(g, f, t);
    }
  }

  lemma SubIs(g: Schema, f: Field, t: set<nat>)
    requires Closed(g) && HasSubmap(f) && f.submap.id < |g|
    ensures Sub(g, f, t).mayAllocate <==> SubAllocates(g, f.submap.id, t)
  {
    hide Analyze;
  }

  lemma MaskBit(g: Schema, m: nat, j: nat)
    requires Closed(g) && m < |g| && Analyze(g, m, {}).valid && j < |g[m].fields| <= MASK_BITS
    ensures j in Analyze(g, m, {}).adoptMask <==> FieldAdopts(g, m, j, {} + {m})
  {
    hide FieldValid, FieldAllocates, FieldAdopts;
  }

  // ----- What an analysis depends on -----

  /** Every map that `g` reaches from `m` is the same in `h`. */
  ghost predicate SameBelow(g: Schema, h: Schema, m: nat) {
    forall w :: WalkFrom(g, m, w) ==> w[|w| - 1] < |g| && w[|w| - 1] < |h| && g[w[|w| - 1]] == h[w[|w| - 1]]
  }

  lemma SameHere(g: Schema, h: Schema, m: nat)
    requires SameBelow(g, h, m) && m < |g|
    ensures m < |h| && g[m] == h[m]
  {
    hide Edge;
    assert WalkFrom(g, m, [m]);
  }

  lemma SameNext(g: Schema, h: Schema, m: nat, n: nat)
    requires SameBelow(g, h, m) && Edge(g, m, n)
    ensures SameBelow(g, h, n)
  {
    hide Edge;
    forall w | WalkFrom(g, n, w)
      ensures w[|w| - 1] < |g| && w[|w| - 1] < |h| && g[w[|w| - 1]] == h[w[|w| - 1]]
    {
      WalkCons(g, m, w);
      assert WalkFrom(g, m, [m] + w) && ([m] + w)[|w|] == w[|w| - 1];
    }
  }

  /** The fields of a map, said of both schemas. */
  lemma SameFields(g: Schema, h: Schema, m: nat, t: set<nat>)
    requires Closed(g) && Closed(h) && m < |g| && m < |h| && g[m] == h[m]
    requires forall i :: 0 <= i < |g[m].fields| ==> SameField(g, h, m, i, t)
    ensures forall i :: 0 <= i < |g[m].fields| ==>
              (FieldValid(g, m, i, t) <==> FieldValid(h, m, i, t)) && (FieldAllocates(g, m, i, t) <==> FieldAllocates(h, m, i, t))
              && (FieldAdopts(g, m, i, t) <==> FieldAdopts(h, m, i, t))
  {
    hide Sub;
    forall i | 0 <= i < |g[m].fields|
      ensures (FieldValid(g, m, i, t) <==> FieldValid(h, m, i, t)) && (FieldAllocates(g, m, i, t) <==> FieldAllocates(h, m, i, t))
              && (FieldAdopts(g, m, i, t) <==> FieldAdopts(h, m, i, t))
    {
      assert SameField(g, h, m, i, t);
    }
  }

  ghost predicate SameField(g: Schema, h: Schema, m: nat, i: nat, t: set<nat>)
    requires Closed(g) && Closed(h) && m < |g| && m < |h| && g[m] == h[m] && i < |g[m].fields|
  {
    var f := g[m].fields[i];
    StorageSize(g, f) == StorageSize(h, f) && (HasSubmap(f) ==> Sub(g, f, t) == Sub(h, f, t))
  }

  lemma SameAnalysis(g: Schema, h: Schema, m: nat, s: set<nat>)
    requires Closed(g) && Closed(h) && m < |g| && m < |h| && g[m] == h[m] && m !in s
    requires forall i :: 0 <= i < |g[m].fields| ==>
               (FieldValid(g, m, i, s + {m}) <==> FieldValid(h, m, i, s + {m}))
               && (FieldAllocates(g, m, i, s + {m}) <==> FieldAllocates(h, m, i, s + {m}))
               && (FieldAdopts(g, m, i, s + {m}) <==> FieldAdopts(h, m, i, s + {m}))
    ensures Analyze(g, m, s) == Analyze(h, m, s)
  {
    hide FieldValid, FieldAllocates, FieldAdopts, UpTo;
    assert FirstInvalid(g, m, 0, s + {m}) == FirstInvalid(h, m, 0, s + {m});
  }

  /** The analysis of a map depends on nothing but the maps it reaches. */
  lemma {:induction false} AnalysisDependsOnReachable(g: Schema, h: Schema, m: nat, s: set<nat>)
    requires Closed(g) && Closed(h) && m < |g| && m < |h| && m !in s && SameBelow(g, h, m)
    ensures Analyze(g, m, s) == Analyze(h, m, s)
    decreases Ids(g) - s
  {
    hide Analyze, Edge, FieldValid, FieldAllocates, FieldAdopts, SameBelow;
    var t := s + {m};
    SameHere(g, h, m);
    Deeper(g, m, s);
    forall i | 0 <= i < |g[m].fields| ensures SameField(g, h, m, i, t) {
      var f := g[m].fields[i];
      if HasSubmap(f) {
        FieldEdge(g, m, i);
        SameNext(g, h, m, f.submap.id);
        SameHere(g, h, f.submap.id);
        if f.submap.id !in t {
          AnalysisDependsOnReachable(g, h, f.submap.id, t);
        }
      }
    }
    SameFields(g, h, m, t);
    SameAnalysis(g, h, m, s);
  }

  /** A map with one object field, whose map has one string field. */
  function Nested(storage: Storage): Schema {
    var flags := Flags(false, false, false, false, false);
    [MapDef(8, [Field(Object, Fixed, flags, 0, 0, 0, 0, MapLink(1))], 16, 1, true),
     MapDef(8, [Field(StringField, storage, flags, 0, 0, 8, 0, NoMap)], 32, 1, true)]
  }

  lemma NestedInner(storage: Storage)
    ensures var g := Nested(storage);
            Closed(g) && Analyze(g, 1, {0}).valid && (Analyze(g, 1, {0}).mayAllocate <==> storage == Dynamic)
  {
    var g, t := Nested(storage), {0} + {1};
    assert FieldValid(g, 1, 0, t);
    assert FirstInvalid(g, 1, 0, t) == FirstInvalid(g, 1, 1, t) == 1;
    assert FieldAllocates(g, 1, 0, t) <==> storage == Dynamic;
  }

  lemma NestedOuter(storage: Storage)
    ensures var g := Nested(storage);
            Closed(g) && Analyze(g, 0, {}).valid && (Analyze(g, 0, {}).mayAllocate <==> storage == Dynamic)
  {
    var g, t := Nested(storage), {} + {0};
    NestedInner(storage);
    assert t == {0};
    assert FieldValid(g, 0, 0, t) && (FieldAllocates(g, 0, 0, t) <==> storage == Dynamic);
    assert FirstInvalid(g, 0, 0, t) == FirstInvalid(g, 0, 1, t) == 1;
  }

  /** Its own contents are not enough: a change in a submap changes what is said of
      a map that is itself unchanged. */
  lemma OwnContentsAreNotEnough()
    ensures var g, h := Nested(Fixed), Nested(Dynamic);
            Closed(g) && Closed(h) && g[0] == h[0] && g[1].cookie == h[1].cookie && Analyze(g, 0, {}) != Analyze(h, 0, {})
  {
    NestedOuter(Fixed);
    NestedOuter(Dynamic);
  }

  // ----- Where fields lie -----

  /** What a field takes of its structure: a dynamic string a pointer, a fixed one its
      characters, an object its own structure, other kinds what their C type has. */
  ghost predicate Takes(g: Schema, f: Field, size: nat) {
    && (f.kind == StringField && f.storage == Dynamic ==> size == 8)
    && (f.kind == StringField && f.storage == Fixed ==> size == f.fixedCapacity)
    && (f.kind == Object ==> f.submap.MapLink? && f.submap.id < |g| && size == g[f.submap.id].structSize)
    && (f.kind != StringField && f.kind != Object ==> f.kind != OtherKind && size == f.typeSize)
  }

  predicate HasByte(m: MapDef, b: nat) {
    b < m.structSize
  }

  /** Every byte from `start` on, for `size` bytes, is one of the structure's. */
  ghost predicate Inside(m: MapDef, start: nat, size: nat) {
    forall b: nat :: start <= b < start + size ==> HasByte(m, b)
  }

  /** A required field has no other flag, only plain scalars have a presence field, and
      only with one is null accepted. */
  ghost predicate FlagsAgree(k: Kind, flags: Flags) {
    && (flags.required ==> flags == Flags(true, false, false, false, false))
    && (flags.hasPresence ==> k in {I64, U64, F64, Bool})
    && (flags.acceptNull ==> flags.hasPresence)
  }

  lemma InsideMeans(m: MapDef, start: nat, size: nat)
    requires 0 < size
    ensures Inside(m, start, size) <==> start + size <= m.structSize
  {
    if Inside(m, start, size) {
      assert HasByte(m, start + size - 1);
    }
  }

  /** A field is well placed exactly when it takes some bytes, all of them and those of
      its presence field lie inside the structure, and its flags agree. */
  lemma FieldOkMeans(g: Schema, m: MapDef, f: Field)
    ensures FieldOk(g, m, f) <==>
            && (exists size :: 0 < size && Takes(g, f, size) && Inside(m, f.offset, size))
            && (f.flags.hasPresence ==> Inside(m, f.presenceOffset, 4)) && FlagsAgree(f.kind, f.flags)
  {
    InsideMeans(m, f.presenceOffset, 4);
    var size := StorageSize(g, f);
    if 0 < size {
      InsideMeans(m, f.offset, size);
      assert Takes(g, f, size);
    }
  }

  /** Field indices from a map down through embedded objects. */
  ghost predicate Path(g: Schema, m: nat, path: seq<nat>)
    decreases |path|
  {
    && path != [] && m < |g| && path[0] < |g[m].fields|
    && (1 < |path| ==>
          var f := g[m].fields[path[0]];
          f.kind == Object && f.submap.MapLink? && Path(g, f.submap.id, path[1..]))
  }

  /** Where in the outermost structure the last field lies. */
  ghost function Depth(g: Schema, m: nat, path: seq<nat>): nat
    requires Path(g, m, path)
    decreases |path|
  {
    var f := g[m].fields[path[0]];
    f.offset + if |path| == 1 then 0 else Depth(g, f.submap.id, path[1..])
  }

  ghost function LastField(g: Schema, m: nat, path: seq<nat>): Field
    requires Path(g, m, path)
    decreases |path|
  {
    var f := g[m].fields[path[0]];
    if |path| == 1 then f else LastField(g, f.submap.id, path[1..])
  }

  /** In a valid map, a field at any depth of embedding lies inside the outermost
      structure. */
  lemma {:induction false} NestedFieldsInside(g: Schema, m: nat, path: seq<nat>, size: nat)
    requires Closed(g) && Path(g, m, path) && Analyze(g, m, {}).valid && Takes(g, LastField(g, m, path), size)
    ensures 0 < size && Inside(g[m], Depth(g, m, path), size)
    decreases |path|
  {
    hide Analyze, FieldOk;
    var f := g[m].fields[path[0]];
    ValidLocally(g, m, {});
    FieldOkMeans(g, g[m], f);
    var own :| 0 < own && Takes(g, f, own) && Inside(g[m], f.offset, own);
    InsideMeans(g[m], f.offset, own);
    if 1 < |path| {
      FieldEdge(g, m, path[0]);
      assert Walk(g, [m]);
      ValidBelow(g, [m], f.submap.id);
      NestedFieldsInside(g, f.submap.id, path[1..], size);
      InsideMeans(g[f.submap.id], Depth(g, f.submap.id, path[1..]), size);
      InsideMeans(g[m], Depth(g, m, path), size);
    }
  }
}
