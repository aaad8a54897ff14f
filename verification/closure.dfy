/**
 * What processDeps computes for one SCO, as functions: the media references of a data
 * module (searchForICN), the data-module references it adds (searchForDmRefs), and the
 * dependency accumulator built over the SCO's declared modules with the one-hop
 * expansion of nested references. The methods of module PreProcess are proved against
 * these; the lemmas here state what the accumulator holds.
 */
module Closure {
  import opened Wrappers
  import opened OrderedLists
  import opened JavaStrings
  import opened ManifestModel

  /** searchForICN: the distinct infoEntityIdent values of a document, in document order. */
  function IcnRefs(doc: Document): (r: seq<string>)
    ensures |r| <= |doc.infoEntityIdents|
  {
    AppendNew([], doc.infoEntityIdents)
  }

  /** The ICN list holds every infoEntityIdent value once, ordered by first appearance. */
  lemma IcnRefsSpec(doc: Document)
    ensures NoDup(IcnRefs(doc))
    ensures forall x :: x in IcnRefs(doc) <==> x in doc.infoEntityIdents
    ensures forall i, j :: 0 <= i < j < |IcnRefs(doc)| ==>
      IcnRefs(doc)[i] in doc.infoEntityIdents && IcnRefs(doc)[j] in doc.infoEntityIdents &&
      FirstIndex(doc.infoEntityIdents, IcnRefs(doc)[i]) < FirstIndex(doc.infoEntityIdents, IcnRefs(doc)[j])
  {
    AppendNewNoDup([], doc.infoEntityIdents);
    AppendNewOrder([], doc.infoEntityIdents);
    forall x ensures x in IcnRefs(doc) <==> x in doc.infoEntityIdents {
      AppendNewMember([], doc.infoEntityIdents, x);
    }
  }

  /** Some existing `dependency` identifierref of the SCO contains dmc (String.contains). */
  predicate LinkedBy(scoDeps: seq<string>, dmc: string) {
    exists j :: 0 <= j < |scoDeps| && Contains(scoDeps[j], dmc)
  }

  /** One more dependency to look through. */
  lemma LinkedBySnoc(scoDeps: seq<string>, ref: string, dmc: string)
    ensures LinkedBy(scoDeps + [ref], dmc) <==> LinkedBy(scoDeps, dmc) || Contains(ref, dmc)
  {
    var s := scoDeps + [ref];
    assert s[|scoDeps|] == ref;
    assert forall j :: 0 <= j < |scoDeps| ==> s[j] == scoDeps[j];
  }

  /** The references, in order, that no existing dependency of the SCO contains. */
  function Unlinked(dmRefs: seq<string>, scoDeps: seq<string>): (r: seq<string>)
    ensures forall x :: x in r <==> x in dmRefs && !LinkedBy(scoDeps, x)
    ensures |r| <= |dmRefs|
  {
    if dmRefs == [] then []
    else
      var rest := Unlinked(dmRefs[1..], scoDeps);
      assert dmRefs == [dmRefs[0]] + dmRefs[1..];
      if LinkedBy(scoDeps, dmRefs[0]) then rest else [dmRefs[0]] + rest
  }

  /** Filtering one more reference. */
  lemma {:induction false} UnlinkedSnoc(dmRefs: seq<string>, scoDeps: seq<string>, x: string)
    ensures Unlinked(dmRefs + [x], scoDeps)
      == Unlinked(dmRefs, scoDeps) + (if LinkedBy(scoDeps, x) then [] else [x])
    decreases |dmRefs|
  {
    if dmRefs != [] {
      assert (dmRefs + [x])[1..] == dmRefs[1..] + [x];
      UnlinkedSnoc(dmRefs[1..], scoDeps, x);
    } else {
      assert dmRefs + [x] == [x];
    }
  }

  /**
   * searchForDmRefs: the data-module references of a document that are new to the SCO,
   * without repeats. When the SCO has no `dependency` child the identifierref variable
   * keeps its initial literal "" and the reference comparison with "" rejects everything.
   */
  function NestedDmRefs(dmRefs: seq<string>, scoDeps: seq<string>): (r: seq<string>)
    ensures |r| <= |dmRefs|
  {
    if scoDeps == [] then [] else AppendNew([], Unlinked(dmRefs, scoDeps))
  }

  /** What searchForDmRefs promises about its result. */
  lemma NestedDmRefsSpec(dmRefs: seq<string>, scoDeps: seq<string>)
    ensures scoDeps == [] ==> NestedDmRefs(dmRefs, scoDeps) == []
    ensures NoDup(NestedDmRefs(dmRefs, scoDeps))
    ensures forall x :: x in NestedDmRefs(dmRefs, scoDeps) <==>
      scoDeps != [] && x in dmRefs && !LinkedBy(scoDeps, x)
    ensures forall x :: x in NestedDmRefs(dmRefs, scoDeps) ==> x !in scoDeps
  {
    AppendNewNoDup([], Unlinked(dmRefs, scoDeps));
    forall x ensures x in NestedDmRefs(dmRefs, scoDeps) <==> scoDeps != [] && x in dmRefs && !LinkedBy(scoDeps, x) {
      AppendNewMember([], Unlinked(dmRefs, scoDeps), x);
    }
  }

  /**
   * The inner loop of processDeps over one module's nested references: a reference not yet
   * accumulated is added and immediately followed by its own document's ICNs; its own
   * references are not looked at.
   */
  function ExpandNested(env: Env, scoKey: string, acc: seq<string>, nested: seq<string>)
    : (r: Result<seq<string>, Error>)
    ensures r.Failure? ==> exists n :: n in nested && GetResourceHref(env, scoKey, n) == Failure(r.error)
    decreases |nested|
  {
    if nested == [] then Success(acc)
    else if nested[0] in acc then ExpandNested(env, scoKey, acc, nested[1..])
    else
      match GetResourceHref(env, scoKey, nested[0])
      case Failure(e) => Failure(e)
      case Success(d) => ExpandNested(env, scoKey, AppendNew(acc + [nested[0]], IcnRefs(d)), nested[1..])
  }

  /** The outer loop of processDeps over the SCO's declared modules. */
  function Accumulate(env: Env, scoKey: string, scoDeps: seq<string>, acc: seq<string>, modules: seq<string>)
    : (r: Result<seq<string>, Error>)
    ensures r.Failure? ==> exists x :: GetResourceHref(env, scoKey, x) == Failure(r.error)
    decreases |modules|
  {
    if modules == [] then Success(acc)
    else
      match GetResourceHref(env, scoKey, modules[0])
      case Failure(e) => Failure(e)
      case Success(d) =>
        var withIcns := AppendNew(acc, IcnRefs(d));
        match ExpandNested(env, scoKey, withIcns, NestedDmRefs(d.dmRefs, scoDeps))
        case Failure(e) => Failure(e)
        case Success(acc') => Accumulate(env, scoKey, scoDeps, acc', modules[1..])
  }

  /** Continue the outer loop with the modules left, unless a step already failed. */
  function Resume(env: Env, scoKey: string, scoDeps: seq<string>, r: Result<seq<string>, Error>, modules: seq<string>)
    : Result<seq<string>, Error>
  {
    match r
    case Failure(e) => Failure(e)
    case Success(acc) => Accumulate(env, scoKey, scoDeps, acc, modules)
  }

  /** The dependency identifiers of the first resource with identifier scoKey. */
  function ScoDependencies(resources: seq<Resource>, scoKey: string): seq<string>
    requires FindResource(resources, scoKey).Some?
  {
    Dependencies(resources[FindResource(resources, scoKey).value].children)
  }

  /** The accumulator processDeps builds for one SCO from a fresh, empty list. */
  function ScoClosure(env: Env, scoKey: string, modules: seq<string>): (r: Result<seq<string>, Error>)
    requires FindResource(env.resources, scoKey).Some?
    ensures r.Success? ==> NoDup(r.value)
  {
    AccumulateNoDup(env, scoKey, ScoDependencies(env.resources, scoKey), [], modules);
    Accumulate(env, scoKey, ScoDependencies(env.resources, scoKey), [], modules)
  }

  // ---------------------------------------------------------------------------------
  // No duplicates

  lemma {:induction false} ExpandNestedNoDup(env: Env, scoKey: string, acc: seq<string>, nested: seq<string>)
    requires NoDup(acc)
    ensures ExpandNested(env, scoKey, acc, nested).Success? ==> NoDup(ExpandNested(env, scoKey, acc, nested).value)
    decreases |nested|
  {
    if nested != [] {
      if nested[0] in acc {
        ExpandNestedNoDup(env, scoKey, acc, nested[1..]);
      } else if GetResourceHref(env, scoKey, nested[0]).Success? {
        var d := GetResourceHref(env, scoKey, nested[0]).value;
        AppendNewNoDup(acc + [nested[0]], IcnRefs(d));
        ExpandNestedNoDup(env, scoKey, AppendNew(acc + [nested[0]], IcnRefs(d)), nested[1..]);
      }
    }
  }

  lemma {:induction false} AccumulateNoDup(env: Env, scoKey: string, scoDeps: seq<string>, acc: seq<string>, modules: seq<string>)
    requires NoDup(acc)
    ensures Accumulate(env, scoKey, scoDeps, acc, modules).Success? ==>
      NoDup(Accumulate(env, scoKey, scoDeps, acc, modules).value)
    decreases |modules|
  {
    if modules != [] && GetResourceHref(env, scoKey, modules[0]).Success? {
      var d := GetResourceHref(env, scoKey, modules[0]).value;
      var withIcns := AppendNew(acc, IcnRefs(d));
      AppendNewNoDup(acc, IcnRefs(d));
      var nested := NestedDmRefs(d.dmRefs, scoDeps);
      ExpandNestedNoDup(env, scoKey, withIcns, nested);
      if ExpandNested(env, scoKey, withIcns, nested).Success? {
        AccumulateNoDup(env, scoKey, scoDeps, ExpandNested(env, scoKey, withIcns, nested).value, modules[1..]);
      }
    }
  }

  // ---------------------------------------------------------------------------------
  // Coverage

  lemma {:induction false} ExpandNestedCovers(env: Env, scoKey: string, acc: seq<string>, nested: seq<string>)
    ensures ExpandNested(env, scoKey, acc, nested).Success? ==>
      && acc <= ExpandNested(env, scoKey, acc, nested).value
      && forall x :: x in nested ==> x in ExpandNested(env, scoKey, acc, nested).value
    decreases |nested|
  {
    if nested != [] {
      var r := ExpandNested(env, scoKey, acc, nested);
      if nested[0] in acc {
        ExpandNestedCovers(env, scoKey, acc, nested[1..]);
      } else if GetResourceHref(env, scoKey, nested[0]).Success? {
        var d := GetResourceHref(env, scoKey, nested[0]).value;
        AppendNewExtends(acc + [nested[0]], IcnRefs(d));
        ExpandNestedCovers(env, scoKey, AppendNew(acc + [nested[0]], IcnRefs(d)), nested[1..]);
        if r.Success? {
          assert acc + [nested[0]] <= r.value;
          assert nested[0] == (acc + [nested[0]])[|acc|] == r.value[|acc|];
        }
      }
      if r.Success? {
        assert forall x :: x in nested ==> x == nested[0] || x in nested[1..];
      }
    }
  }

  lemma {:induction false} AccumulateGrows(env: Env, scoKey: string, scoDeps: seq<string>, acc: seq<string>, modules: seq<string>)
    ensures Accumulate(env, scoKey, scoDeps, acc, modules).Success? ==>
      acc <= Accumulate(env, scoKey, scoDeps, acc, modules).value
    decreases |modules|
  {
    if modules != [] && GetResourceHref(env, scoKey, modules[0]).Success? {
      var d := GetResourceHref(env, scoKey, modules[0]).value;
      var withIcns := AppendNew(acc, IcnRefs(d));
      AppendNewExtends(acc, IcnRefs(d));
      var nested := NestedDmRefs(d.dmRefs, scoDeps);
      ExpandNestedCovers(env, scoKey, withIcns, nested);
      if ExpandNested(env, scoKey, withIcns, nested).Success? {
        AccumulateGrows(env, scoKey, scoDeps, ExpandNested(env, scoKey, withIcns, nested).value, modules[1..]);
      }
    }
  }

  /** A module's media and its new nested references, as processDeps records them. */
  ghost predicate CoveredBy(d: Document, scoDeps: seq<string>, r: seq<string>) {
    && (forall x :: x in d.infoEntityIdents ==> x in r)
    && (forall x :: x in NestedDmRefs(d.dmRefs, scoDeps) ==> x in r)
  }

  lemma {:induction false} AccumulateCovers(env: Env, scoKey: string, scoDeps: seq<string>, acc: seq<string>, modules: seq<string>, k: nat)
    requires k < |modules|
    requires Accumulate(env, scoKey, scoDeps, acc, modules).Success?
    ensures GetResourceHref(env, scoKey, modules[k]).Success?
    ensures CoveredBy(GetResourceHref(env, scoKey, modules[k]).value, scoDeps,
                      Accumulate(env, scoKey, scoDeps, acc, modules).value)
    decreases |modules|
  {
    var d := GetResourceHref(env, scoKey, modules[0]).value;
    var withIcns := AppendNew(acc, IcnRefs(d));
    var nested := NestedDmRefs(d.dmRefs, scoDeps);
    var acc' := ExpandNested(env, scoKey, withIcns, nested).value;
    if k == 0 {
      var r := Accumulate(env, scoKey, scoDeps, acc, modules).value;
      ExpandNestedCovers(env, scoKey, withIcns, nested);
      AccumulateGrows(env, scoKey, scoDeps, acc', modules[1..]);
      forall x | x in d.infoEntityIdents ensures x in r {
        AppendNewMember([], d.infoEntityIdents, x);
        AppendNewMember(acc, IcnRefs(d), x);
      }
    } else {
      AccumulateCovers(env, scoKey, scoDeps, acc', modules[1..], k - 1);
      assert modules[1..][k - 1] == modules[k];
    }
  }

  /**
   * Every media reference of every declared module, and every nested reference that is new
   * to the SCO, ends up in the accumulator.
   */
  lemma ClosureCovers(env: Env, scoKey: string, modules: seq<string>, k: nat)
    requires FindResource(env.resources, scoKey).Some?
    requires k < |modules|
    requires ScoClosure(env, scoKey, modules).Success?
    ensures GetResourceHref(env, scoKey, modules[k]).Success?
    ensures CoveredBy(GetResourceHref(env, scoKey, modules[k]).value,
                      ScoDependencies(env.resources, scoKey), ScoClosure(env, scoKey, modules).value)
  {
    AccumulateCovers(env, scoKey, ScoDependencies(env.resources, scoKey), [], modules, k);
  }

  // ---------------------------------------------------------------------------------
  // Only identifiers and hrefs of other resources matter

  lemma {:induction false} ExpandNestedFrame(a: Env, b: Env, scoKey: string, acc: seq<string>, nested: seq<string>)
    requires SameLocations(a.resources, b.resources) && a.srcDir == b.srcDir && a.loader == b.loader
    ensures ExpandNested(a, scoKey, acc, nested) == ExpandNested(b, scoKey, acc, nested)
    decreases |nested|
  {
    if nested != [] {
      GetResourceHrefFrame(a, b, scoKey, nested[0]);
      if GetResourceHref(a, scoKey, nested[0]).Success? {
        var d := GetResourceHref(a, scoKey, nested[0]).value;
        ExpandNestedFrame(a, b, scoKey, AppendNew(acc + [nested[0]], IcnRefs(d)), nested[1..]);
      }
      ExpandNestedFrame(a, b, scoKey, acc, nested[1..]);
    }
  }

  /** Appending dependency elements to SCOs does not change what another SCO's pass computes. */
  lemma {:induction false} AccumulateFrame(a: Env, b: Env, scoKey: string, scoDeps: seq<string>, acc: seq<string>, modules: seq<string>)
    requires SameLocations(a.resources, b.resources) && a.srcDir == b.srcDir && a.loader == b.loader
    ensures Accumulate(a, scoKey, scoDeps, acc, modules) == Accumulate(b, scoKey, scoDeps, acc, modules)
    decreases |modules|
  {
    if modules != [] {
      GetResourceHrefFrame(a, b, scoKey, modules[0]);
      if GetResourceHref(a, scoKey, modules[0]).Success? {
        var d := GetResourceHref(a, scoKey, modules[0]).value;
        var withIcns := AppendNew(acc, IcnRefs(d));
        var nested := NestedDmRefs(d.dmRefs, scoDeps);
        ExpandNestedFrame(a, b, scoKey, withIcns, nested);
        if ExpandNested(a, scoKey, withIcns, nested).Success? {
          AccumulateFrame(a, b, scoKey, scoDeps, ExpandNested(a, scoKey, withIcns, nested).value, modules[1..]);
        }
      }
    }
  }

  // ---------------------------------------------------------------------------------
  // The accumulator is the deduplicated discovery stream

  /** For each nested reference: the reference itself, then its document's ICNs. */
  function NestedStream(env: Env, scoKey: string, nested: seq<string>): Result<seq<string>, Error>
    decreases |nested|
  {
    if nested == [] then Success([])
    else
      match GetResourceHref(env, scoKey, nested[0])
      case Failure(e) => Failure(e)
      case Success(d) =>
        match NestedStream(env, scoKey, nested[1..])
        case Failure(e) => Failure(e)
        case Success(rest) => Success([nested[0]] + IcnRefs(d) + rest)
  }

  /**
   * Everything processDeps discovers for an SCO, in discovery order and with repeats: for
   * each declared module its ICNs, then for each of its new nested references that
   * reference and that module's ICNs. Nothing beyond one hop is ever listed.
   */
  function Stream(env: Env, scoKey: string, scoDeps: seq<string>, modules: seq<string>): Result<seq<string>, Error>
    decreases |modules|
  {
    if modules == [] then Success([])
    else
      match GetResourceHref(env, scoKey, modules[0])
      case Failure(e) => Failure(e)
      case Success(d) =>
        match NestedStream(env, scoKey, NestedDmRefs(d.dmRefs, scoDeps))
        case Failure(e) => Failure(e)
        case Success(ns) =>
          match Stream(env, scoKey, scoDeps, modules[1..])
          case Failure(e) => Failure(e)
          case Success(rest) => Success(IcnRefs(d) + ns + rest)
  }

  /** Scan a successful stream into acc; a failure stays the same failure. */
  function Dedup(acc: seq<string>, r: Result<seq<string>, Error>): Result<seq<string>, Error> {
    match r
    case Failure(e) => Failure(e)
    case Success(s) => Success(AppendNew(acc, s))
  }

  /** x is a media identifier of some document of the package. */
  ghost predicate IsIcn(env: Env, x: string) {
    exists d :: d in env.loader.Values && x in d.infoEntityIdents
  }

  /** x is a data-module reference found in some document of the package. */
  ghost predicate IsDmRef(env: Env, x: string) {
    exists d :: d in env.loader.Values && x in d.dmRefs
  }

  /** No media identifier of the package is also a data-module reference in it. */
  ghost predicate Separated(env: Env) {
    forall x :: IsIcn(env, x) ==> !IsDmRef(env, x)
  }

  /**
   * Every accumulated identifier is a media identifier, or a module whose document
   * loads and whose ICNs are all accumulated already.
   */
  ghost predicate Discovered(env: Env, scoKey: string, acc: seq<string>) {
    forall x :: x in acc ==>
      || IsIcn(env, x)
      || (&& GetResourceHref(env, scoKey, x).Success?
          && forall y :: y in GetResourceHref(env, scoKey, x).value.infoEntityIdents ==> y in acc)
  }

  /** Adding a loaded document's ICNs keeps Discovered. */
  lemma AddIcnsDiscovered(env: Env, scoKey: string, acc: seq<string>, d: Document)
    requires d in env.loader.Values
    requires Discovered(env, scoKey, acc)
    ensures Discovered(env, scoKey, AppendNew(acc, IcnRefs(d)))
  {
    var acc' := AppendNew(acc, IcnRefs(d));
    AppendNewExtends(acc, IcnRefs(d));
    forall x | x in acc'
      ensures || IsIcn(env, x)
              || (&& GetResourceHref(env, scoKey, x).Success?
                  && forall y :: y in GetResourceHref(env, scoKey, x).value.infoEntityIdents ==> y in acc')
    {
      AppendNewMember(acc, IcnRefs(d), x);
      if x !in acc {
        AppendNewMember([], d.infoEntityIdents, x);
        assert IsIcn(env, x);
      }
    }
  }

  lemma {:induction false} ExpandNestedIsDedup(env: Env, scoKey: string, acc: seq<string>, nested: seq<string>)
    requires Separated(env) && Discovered(env, scoKey, acc)
    requires forall n :: n in nested ==> IsDmRef(env, n)
    ensures ExpandNested(env, scoKey, acc, nested) == Dedup(acc, NestedStream(env, scoKey, nested))
    ensures ExpandNested(env, scoKey, acc, nested).Success? ==>
      Discovered(env, scoKey, ExpandNested(env, scoKey, acc, nested).value)
    decreases |nested|
  {
    if nested != [] {
      var n := nested[0];
      assert n in nested;
      var rest := nested[1..];
      assert forall m :: m in rest ==> m in nested;
      if n in acc {
        assert !IsIcn(env, n);
        var d := GetResourceHref(env, scoKey, n).value;
        forall y | y in [n] + IcnRefs(d) ensures y in acc {
          if y != n {
            AppendNewMember([], d.infoEntityIdents, y);
          }
        }
        AppendNewCovered(acc, [n] + IcnRefs(d));
        ExpandNestedIsDedup(env, scoKey, acc, rest);
        if NestedStream(env, scoKey, rest).Success? {
          AppendNewConcat(acc, [n] + IcnRefs(d), NestedStream(env, scoKey, rest).value);
          assert [n] + IcnRefs(d) + NestedStream(env, scoKey, rest).value
              == ([n] + IcnRefs(d)) + NestedStream(env, scoKey, rest).value;
        }
      } else if GetResourceHref(env, scoKey, n).Success? {
        var d := GetResourceHref(env, scoKey, n).value;
        var acc1 := acc + [n];
        var acc' := AppendNew(acc1, IcnRefs(d));
        assert AppendNew(acc, [n]) == AppendNew(acc1, []) == acc1;
        AppendNewExtends(acc1, IcnRefs(d));
        assert Discovered(env, scoKey, acc') by {
          forall x | x in acc'
            ensures || IsIcn(env, x)
                    || (&& GetResourceHref(env, scoKey, x).Success?
                        && forall y :: y in GetResourceHref(env, scoKey, x).value.infoEntityIdents ==> y in acc')
          {
            AppendNewMember(acc1, IcnRefs(d), x);
            if x == n {
              forall y | y in d.infoEntityIdents ensures y in acc' {
                AppendNewMember([], d.infoEntityIdents, y);
                AppendNewMember(acc1, IcnRefs(d), y);
              }
            } else if x !in acc {
              AppendNewMember([], d.infoEntityIdents, x);
              assert IsIcn(env, x);
            } else {
              assert acc <= acc';
            }
          }
        }
        ExpandNestedIsDedup(env, scoKey, acc', rest);
        if NestedStream(env, scoKey, rest).Success? {
          var s := NestedStream(env, scoKey, rest).value;
          AppendNewConcat(acc, [n], IcnRefs(d));
          AppendNewConcat(acc, [n] + IcnRefs(d), s);
          assert [n] + IcnRefs(d) + s == ([n] + IcnRefs(d)) + s;
        }
      }
    }
  }

  lemma {:induction false} AccumulateIsDedup(env: Env, scoKey: string, scoDeps: seq<string>, acc: seq<string>, modules: seq<string>)
    requires Separated(env) && Discovered(env, scoKey, acc)
    ensures Accumulate(env, scoKey, scoDeps, acc, modules) == Dedup(acc, Stream(env, scoKey, scoDeps, modules))
    decreases |modules|
  {
    if modules != [] && GetResourceHref(env, scoKey, modules[0]).Success? {
      var d := GetResourceHref(env, scoKey, modules[0]).value;
      var withIcns := AppendNew(acc, IcnRefs(d));
      AddIcnsDiscovered(env, scoKey, acc, d);
      var nested := NestedDmRefs(d.dmRefs, scoDeps);
      forall m | m in nested ensures IsDmRef(env, m) {
        NestedDmRefsSpec(d.dmRefs, scoDeps);
      }
      ExpandNestedIsDedup(env, scoKey, withIcns, nested);
      if ExpandNested(env, scoKey, withIcns, nested).Success? {
        var ns := NestedStream(env, scoKey, nested).value;
        var acc' := ExpandNested(env, scoKey, withIcns, nested).value;
        AccumulateIsDedup(env, scoKey, scoDeps, acc', modules[1..]);
        if Stream(env, scoKey, scoDeps, modules[1..]).Success? {
          var rest := Stream(env, scoKey, scoDeps, modules[1..]).value;
          AppendNewConcat(acc, IcnRefs(d), ns);
          AppendNewConcat(acc, IcnRefs(d) + ns, rest);
        }
      }
    }
  }

  /**
   * When media identifiers and data-module references are kept apart, the accumulator of
   * an SCO is exactly its discovery stream with repeats dropped (first occurrence kept),
   * and it fails exactly when the stream hits a dangling reference, with the same error.
   */
  lemma ClosureIsDedupOfDiscovery(env: Env, scoKey: string, modules: seq<string>)
    requires FindResource(env.resources, scoKey).Some?
    requires Separated(env)
    ensures ScoClosure(env, scoKey, modules)
      == Dedup([], Stream(env, scoKey, ScoDependencies(env.resources, scoKey), modules))
  {
    AccumulateIsDedup(env, scoKey, ScoDependencies(env.resources, scoKey), [], modules);
  }
}
