/**
 * Small packages worked through the model: the discovery order of one SCO, a media file
 * shown by two modules, a dangling reference, the substring filter of searchForDmRefs,
 * and a package in which a media identifier doubles as a data-module reference. Each is
 * stated for any manifest and loader with the described shape.
 */
module Scenarios {
  import opened Wrappers
  import opened OrderedLists
  import opened JavaStrings
  import opened ManifestModel
  import opened Closure

  /** Scanning a single element. */
  lemma {:induction false} ScanOne(acc: seq<string>, x: string)
    ensures AppendNew(acc, [x]) == if x in acc then acc else acc + [x]
  {
    assert [x][1..] == [];
  }

  /** Scanning two elements. */
  lemma {:induction false} ScanTwo(acc: seq<string>, x: string, y: string)
    ensures AppendNew(acc, [x, y]) == AppendNew(AppendNew(acc, [x]), [y])
  {
    assert [x, y] == [x] + [y];
    AppendNewConcat(acc, [x], [y]);
  }

  /** Expanding a single nested reference that is new to the accumulator. */
  lemma {:induction false} ExpandOne(env: Env, u: string, acc: seq<string>, n: string, d: Document)
    requires n !in acc && GetResourceHref(env, u, n) == Success(d)
    ensures ExpandNested(env, u, acc, [n]) == Success(AppendNew(acc + [n], IcnRefs(d)))
  {
    assert [n][1..] == [];
  }

  /** A nested reference already accumulated is skipped. */
  lemma {:induction false} ExpandSkip(env: Env, u: string, acc: seq<string>, n: string)
    requires n in acc
    ensures ExpandNested(env, u, acc, [n]) == Success(acc)
  {
    assert [n][1..] == [];
  }

  /** The outer loop over a single declared module. */
  lemma {:induction false} AccumulateOne(env: Env, u: string, deps: seq<string>, acc: seq<string>, m: string, d: Document)
    requires GetResourceHref(env, u, m) == Success(d)
    ensures Accumulate(env, u, deps, acc, [m])
         == ExpandNested(env, u, AppendNew(acc, IcnRefs(d)), NestedDmRefs(d.dmRefs, deps))
  {
    assert [m][1..] == [];
  }

  /** The discovery stream of a single nested reference. */
  lemma {:induction false} NestedStreamOne(env: Env, u: string, n: string, d: Document)
    requires GetResourceHref(env, u, n) == Success(d)
    ensures NestedStream(env, u, [n]) == Success([n] + IcnRefs(d))
  {
    assert [n][1..] == [];
    assert [n] + IcnRefs(d) + [] == [n] + IcnRefs(d);
  }

  /** The discovery stream of a single declared module whose nested references all load. */
  lemma {:induction false} StreamOne(env: Env, u: string, deps: seq<string>, m: string, d: Document, ns: seq<string>)
    requires GetResourceHref(env, u, m) == Success(d)
    requires NestedStream(env, u, NestedDmRefs(d.dmRefs, deps)) == Success(ns)
    ensures Stream(env, u, deps, [m]) == Success(IcnRefs(d) + ns)
  {
    assert [m][1..] == [];
    assert IcnRefs(d) + ns + [] == IcnRefs(d) + ns;
  }

  /** A document showing one media identifier yields exactly that ICN. */
  lemma {:induction false} IcnRefsSingle(x: string, refs: seq<string>)
    ensures IcnRefs(Document([x], refs)) == [x]
  {
    ScanOne([], x);
    assert [] + [x] == [x];
  }

  /** A single reference that the single dependency does not contain is kept. */
  lemma {:induction false} NestedOne(m1: string, m2: string)
    requires !Contains(m1, m2)
    ensures NestedDmRefs([m2], [m1]) == [m2]
  {
    assert !LinkedBy([m1], m2);
    assert [m2][1..] == [];
    assert Unlinked([m2], [m1]) == [m2];
    ScanOne([], m2);
  }

  /**
   * SCO u declares module m1, whose document shows media a twice and refers to module m2,
   * whose document shows media b: u's accumulator is a, m2, b, in that discovery order.
   */
  lemma {:induction false} OneHopOrder(env: Env, u: string, m1: string, m2: string, a: string, b: string)
    requires FindResource(env.resources, u).Some? && ScoDependencies(env.resources, u) == [m1]
    requires GetResourceHref(env, u, m1) == Success(Document([a, a], [m2]))
    requires GetResourceHref(env, u, m2) == Success(Document([b], []))
    requires !Contains(m1, m2)
    requires a != m2 && a != b && b != m2
    ensures ScoClosure(env, u, [m1]) == Success([a, m2, b])
  {
    var d1 := Document([a, a], [m2]);
    assert [] + [a] == [a];
    ScanOne([], a);
    ScanTwo([], a, a);
    ScanOne([a], a);
    assert IcnRefs(d1) == [a];
    var withIcns := AppendNew([], IcnRefs(d1));
    assert withIcns == [a];
    NestedOne(m1, m2);
    var nested := NestedDmRefs(d1.dmRefs, [m1]);
    assert nested == [m2];
    OneHopNested(env, u, m2, a, b);
    AccumulateOne(env, u, [m1], [], m1, d1);
  }

  /** The nested module m2 of OneHopOrder is added after a and followed by its media b. */
  lemma {:induction false} OneHopNested(env: Env, u: string, m2: string, a: string, b: string)
    requires GetResourceHref(env, u, m2) == Success(Document([b], []))
    requires a != m2 && a != b && b != m2
    ensures ExpandNested(env, u, [a], [m2]) == Success([a, m2, b])
  {
    var d2 := Document([b], []);
    assert [] + [b] == [b];
    ScanOne([], b);
    assert IcnRefs(d2) == [b];
    ExpandOne(env, u, [a], m2, d2);
    ScanOne([a, m2], b);
    assert [a] + [m2] == [a, m2];
    assert b !in [a, m2] && [a, m2] + [b] == [a, m2, b];
  }

  /** SCO u declares modules m3 and m4 whose documents both show media c: c is listed once. */
  lemma {:induction false} SharedMediaOnce(env: Env, u: string, m3: string, m4: string, c: string)
    requires FindResource(env.resources, u).Some? && ScoDependencies(env.resources, u) == [m3, m4]
    requires GetResourceHref(env, u, m3) == Success(Document([c], []))
    requires GetResourceHref(env, u, m4) == Success(Document([c], []))
    ensures ScoClosure(env, u, [m3, m4]) == Success([c])
  {
    ScanOne([], c);
    ScanOne([c], c);
    assert IcnRefs(Document([c], [])) == [c];
    assert NestedDmRefs([], [m3, m4]) == [];
    assert [m3, m4][1..] == [m4];
    assert [m4][1..] == [];
    assert Accumulate(env, u, [m3, m4], [c], [m4]) == Success([c]);
    assert Accumulate(env, u, [m3, m4], [], [m3, m4]) == Success([c]);
  }

  /** A declared module that no resource carries aborts u's pass with the reference and u. */
  lemma {:induction false} DanglingReference(env: Env, u: string, m: string, rest: seq<string>)
    requires FindResource(env.resources, u).Some? && FindResource(env.resources, m).None?
    ensures ScoClosure(env, u, [m] + rest) == Failure(ResourceMap(m, u))
  {
    assert HrefOf(env.resources, m).None?;
    assert ([m] + rest)[0] == m;
  }

  /** A string lacking one of the characters of t does not contain t. */
  lemma {:induction false} MissingChar(s: string, t: string, k: nat)
    requires k < |t| && t[k] !in s
    ensures !Contains(s, t)
  {
    forall i ensures !OccursAt(s, t, i) {
      if 0 <= i && i + |t| <= |s| {
        assert s[i..i + |t|][k] == s[i + k];
        assert s[i + k] in s;
      }
    }
  }

  /**
   * A reported reference that is part of an existing identifierref counts as linked: "M1"
   * is dropped because the SCO depends on "M10", while "M5" is kept.
   */
  lemma {:induction false} SubstringLinks()
    ensures NestedDmRefs(["M1", "M5"], ["M10"]) == ["M5"]
  {
    assert OccursAt(["M10"][0], "M1", 0);
    assert LinkedBy(["M10"], "M1");
    MissingChar("M10", "M5", 1);
    assert !LinkedBy(["M10"], "M5");
    assert Unlinked(["M1", "M5"], ["M10"]) == ["M5"];
  }

  /**
   * SCO u declares module m1, whose document shows m2 as a media identifier and also refers
   * to module m2, whose document shows media b. The nested m2 is found already accumulated,
   * so b is never collected: the accumulator is not the deduplicated discovery stream,
   * which would hold b.
   */
  lemma {:induction false} OverlapSkipsNestedMedia(env: Env, u: string, m1: string, m2: string, b: string)
    requires FindResource(env.resources, u).Some? && ScoDependencies(env.resources, u) == [m1]
    requires GetResourceHref(env, u, m1) == Success(Document([m2], [m2]))
    requires GetResourceHref(env, u, m2) == Success(Document([b], []))
    requires !Contains(m1, m2) && b != m2
    ensures !Separated(env)
    ensures ScoClosure(env, u, [m1]) == Success([m2])
    ensures Dedup([], Stream(env, u, [m1], [m1])) == Success([m2, b])
  {
    var d1 := Document([m2], [m2]);
    var d2 := Document([b], []);
    assert m2 in d1.infoEntityIdents && m2 in d1.dmRefs;
    assert IsIcn(env, m2) && IsDmRef(env, m2);
    OverlapClosure(env, u, m1, m2);
    OverlapStream(env, u, m1, m2, b);
  }

  /** The accumulator of the overlapping package. */
  lemma {:induction false} OverlapClosure(env: Env, u: string, m1: string, m2: string)
    requires FindResource(env.resources, u).Some? && ScoDependencies(env.resources, u) == [m1]
    requires GetResourceHref(env, u, m1) == Success(Document([m2], [m2]))
    requires !Contains(m1, m2)
    ensures ScoClosure(env, u, [m1]) == Success([m2])
  {
    var d1 := Document([m2], [m2]);
    assert [] + [m2] == [m2];
    ScanOne([], m2);
    assert IcnRefs(d1) == [m2];
    assert AppendNew([], IcnRefs(d1)) == [m2];
    NestedOne(m1, m2);
    assert NestedDmRefs(d1.dmRefs, [m1]) == [m2];
    ExpandSkip(env, u, [m2], m2);
    AccumulateOne(env, u, [m1], [], m1, d1);
    assert Accumulate(env, u, [m1], [], [m1]) == Success([m2]);
  }

  /** The deduplicated discovery stream of the overlapping package. */
  lemma {:induction false} OverlapStream(env: Env, u: string, m1: string, m2: string, b: string)
    requires GetResourceHref(env, u, m1) == Success(Document([m2], [m2]))
    requires GetResourceHref(env, u, m2) == Success(Document([b], []))
    requires !Contains(m1, m2) && b != m2
    ensures Dedup([], Stream(env, u, [m1], [m1])) == Success([m2, b])
  {
    OverlapDiscovery(env, u, m1, m2, b);
    OverlapScan(m2, b);
  }

  /** The discovery stream of the overlapping package lists m2 as media, then m2 and its media b. */
  lemma {:induction false} OverlapDiscovery(env: Env, u: string, m1: string, m2: string, b: string)
    requires GetResourceHref(env, u, m1) == Success(Document([m2], [m2]))
    requires GetResourceHref(env, u, m2) == Success(Document([b], []))
    requires !Contains(m1, m2)
    ensures Stream(env, u, [m1], [m1]) == Success([m2, m2, b])
  {
    var d1 := Document([m2], [m2]);
    var d2 := Document([b], []);
    IcnRefsSingle(m2, [m2]);
    IcnRefsSingle(b, []);
    NestedOne(m1, m2);
    NestedStreamOne(env, u, m2, d2);
    assert [m2] + [b] == [m2, b];
    StreamOne(env, u, [m1], m1, d1, [m2, b]);
    assert [m2] + [m2, b] == [m2, m2, b];
  }

  /** Scanning m2, m2, b into an empty list keeps m2 once, then b. */
  lemma {:induction false} OverlapScan(m2: string, b: string)
    requires b != m2
    ensures AppendNew([], [m2, m2, b]) == [m2, b]
  {
    assert [m2, m2, b] == [m2] + [m2, b];
    AppendNewConcat([], [m2], [m2, b]);
    ScanOne([], m2);
    assert [] + [m2] == [m2];
    ScanTwo([m2], m2, b);
    ScanOne([m2], m2);
    ScanOne([m2], b);
    assert [m2] + [b] == [m2, b];
  }
}
