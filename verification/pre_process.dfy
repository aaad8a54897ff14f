/**
 * The dependency pass over the manifest: addResources, mapDependencies, processDeps and
 * the helpers they loop through. The manifest is an object whose resource list the
 * passes extend and update in place; each looping helper is a method proved against the
 * functions of module Closure.
 */
module PreProcess {
  import opened Wrappers
  import opened OrderedLists
  import opened JavaStrings
  import opened ManifestModel
  import opened Closure

  /** searchForICN: every element carrying infoEntityIdent, in document order, once per value. */
  method SearchForICN(doc: Document) returns (icnRefs: seq<string>)
    ensures icnRefs == IcnRefs(doc)
  {
    icnRefs := [];
    var els := doc.infoEntityIdents;
    for i := 0 to |els|
      invariant icnRefs == AppendNew([], els[..i])
    {
      var icn := els[i];
      AppendNewSnoc([], els[..i], icn);
      if icn !in icnRefs {
        icnRefs := icnRefs + [icn];
      }
      assert els[..i + 1] == els[..i] + [icn];
    }
    assert els[..|els|] == els;
  }

  /**
   * addICNDependencies: appends the document's ICNs that the list lacks, in scan order;
   * existing entries stay where they are.
   */
  method AddICNDependencies(dependencies: seq<string>, dmDoc: Document) returns (deps: seq<string>)
    ensures deps == AppendNew(dependencies, IcnRefs(dmDoc))
    ensures dependencies <= deps
    ensures NoDup(dependencies) ==> NoDup(deps)
  {
    var icnRefs := SearchForICN(dmDoc);
    deps := dependencies;
    for i := 0 to |icnRefs|
      invariant deps == AppendNew(dependencies, icnRefs[..i])
    {
      var theIcn := icnRefs[i];
      AppendNewSnoc(dependencies, icnRefs[..i], theIcn);
      if theIcn !in deps {
        deps := deps + [theIcn];
      }
      assert icnRefs[..i + 1] == icnRefs[..i] + [theIcn];
    }
    assert icnRefs[..|icnRefs|] == icnRefs;
    AppendNewExtends(dependencies, icnRefs);
    if NoDup(dependencies) {
      AppendNewNoDup(dependencies, icnRefs);
    }
  }

  /** Scanning one more reported reference keeps it exactly when it is new, unlinked and the SCO has dependencies. */
  lemma NestedDmRefsPrefixStep(refs: seq<string>, scoDeps: seq<string>, i: nat)
    requires i < |refs|
    ensures NestedDmRefs(refs[..i + 1], scoDeps)
      == if scoDeps == [] || LinkedBy(scoDeps, refs[i]) || refs[i] in NestedDmRefs(refs[..i], scoDeps)
         then NestedDmRefs(refs[..i], scoDeps)
         else NestedDmRefs(refs[..i], scoDeps) + [refs[i]]
  {
    if scoDeps != [] {
      var before := Unlinked(refs[..i], scoDeps);
      assert refs[..i + 1] == refs[..i] + [refs[i]];
      UnlinkedSnoc(refs[..i], scoDeps, refs[i]);
      if LinkedBy(scoDeps, refs[i]) {
        assert Unlinked(refs[..i + 1], scoDeps) == before;
      } else {
        assert Unlinked(refs[..i + 1], scoDeps) == before + [refs[i]];
        AppendNewSnoc([], before, refs[i]);
      }
    }
  }

  /**
   * searchForDmRefs: keeps each reference DMParser reports that no `dependency` of the SCO
   * contains and that is not already kept. The scan over the dependencies leaves
   * identifierref at its initial literal "" only when there is none; the comparison
   * `identifierref != ""` is by reference, so it holds exactly when some dependency was read.
   */
  method SearchForDmRefs(dmDoc: Document, scoResource: Resource) returns (referencedDMs: seq<string>)
    ensures referencedDMs == NestedDmRefs(dmDoc.dmRefs, Dependencies(scoResource.children))
  {
    var refs := dmDoc.dmRefs;
    var scoDeps := Dependencies(scoResource.children);
    referencedDMs := [];
    for i := 0 to |refs|
      invariant referencedDMs == NestedDmRefs(refs[..i], scoDeps)
    {
      var dmc := refs[i];
      var found := false;
      var identifierrefIsLiteral := true;
      for j := 0 to |scoDeps|
        invariant found == LinkedBy(scoDeps[..j], dmc)
        invariant identifierrefIsLiteral <==> j == 0
      {
        var identifierref := scoDeps[j];
        LinkedBySnoc(scoDeps[..j], identifierref, dmc);
        assert scoDeps[..j + 1] == scoDeps[..j] + [identifierref];
        identifierrefIsLiteral := false;
        if Contains(identifierref, dmc) {
          found := true;
        }
      }
      assert scoDeps[..|scoDeps|] == scoDeps;
      NestedDmRefsPrefixStep(refs, scoDeps, i);
      if dmc !in referencedDMs && !found && !identifierrefIsLiteral {
        referencedDMs := referencedDMs + [dmc];
      }
    }
    assert refs[..|refs|] == refs;
  }

  /** Resource j is an SCO and no SCO after it, among the first n resources, has the same identifier. */
  ghost predicate LastScoWithItsIdentifier(resources: seq<Resource>, n: int, j: int)
    requires 0 <= j < n <= |resources|
  {
    && IsSco(resources[j])
    && forall l :: j < l < n && IsSco(resources[l]) ==> resources[l].identifier != resources[j].identifier
  }

  /** An SCO that is last with its identifier among more resources is last among fewer. */
  lemma LastScoAmongFewer(resources: seq<Resource>, n: int, j: int)
    requires 0 <= j < n < |resources| && LastScoWithItsIdentifier(resources, n + 1, j)
    ensures LastScoWithItsIdentifier(resources, n, j)
  {
  }

  /** The keys of scoMap are the identifiers of the SCOs among the first n resources. */
  ghost predicate KeysFirst(resources: seq<Resource>, n: int, scoMap: map<string, seq<string>>)
    requires 0 <= n <= |resources|
  {
    forall k :: k in scoMap <==> exists j :: 0 <= j < n && IsSco(resources[j]) && resources[j].identifier == k
  }

  /** Each such identifier maps to the dependencies of the last SCO among the first n that carries it. */
  ghost predicate EntriesFirst(resources: seq<Resource>, n: int, scoMap: map<string, seq<string>>)
    requires 0 <= n <= |resources|
  {
    forall j :: 0 <= j < n && LastScoWithItsIdentifier(resources, n, j) ==>
      resources[j].identifier in scoMap && scoMap[resources[j].identifier] == Dependencies(resources[j].children)
  }

  /** scoMap is what mapDependencies has built after reading the first n resources. */
  ghost predicate MapsFirst(resources: seq<Resource>, n: int, scoMap: map<string, seq<string>>)
    requires 0 <= n <= |resources|
  {
    KeysFirst(resources, n, scoMap) && EntriesFirst(resources, n, scoMap)
  }

  /** Reading one more resource that is an SCO adds its identifier to the keys. */
  lemma KeysFirstSco(resources: seq<Resource>, n: int, scoMap: map<string, seq<string>>)
    requires 0 <= n < |resources| && KeysFirst(resources, n, scoMap) && IsSco(resources[n])
    ensures KeysFirst(resources, n + 1, scoMap[resources[n].identifier := Dependencies(resources[n].children)])
  {
    var r := resources[n];
    var next := scoMap[r.identifier := Dependencies(r.children)];
    forall k | k in next ensures exists j :: 0 <= j < n + 1 && IsSco(resources[j]) && resources[j].identifier == k {
      if k != r.identifier {
        assert k in scoMap;
        var j :| 0 <= j < n && IsSco(resources[j]) && resources[j].identifier == k;
        assert 0 <= j < n + 1;
      } else {
        assert 0 <= n < n + 1 && IsSco(resources[n]) && resources[n].identifier == k;
      }
    }
    forall j | 0 <= j < n + 1 && IsSco(resources[j]) ensures resources[j].identifier in next {
      if j < n {
        assert resources[j].identifier in scoMap;
      }
    }
  }

  /** Reading one more resource that is an SCO makes its entry that SCO's dependencies. */
  lemma EntriesFirstSco(resources: seq<Resource>, n: int, scoMap: map<string, seq<string>>)
    requires 0 <= n < |resources| && EntriesFirst(resources, n, scoMap) && IsSco(resources[n])
    ensures EntriesFirst(resources, n + 1, scoMap[resources[n].identifier := Dependencies(resources[n].children)])
  {
    var r := resources[n];
    var next := scoMap[r.identifier := Dependencies(r.children)];
    forall j | 0 <= j < n + 1 && LastScoWithItsIdentifier(resources, n + 1, j)
      ensures resources[j].identifier in next && next[resources[j].identifier] == Dependencies(resources[j].children)
    {
      if j < n {
        assert resources[j].identifier != r.identifier;
        LastScoAmongFewer(resources, n, j);
      }
    }
  }

  /** Reading one more resource that is not an SCO leaves the keys as they are. */
  lemma KeysFirstSkip(resources: seq<Resource>, n: int, scoMap: map<string, seq<string>>)
    requires 0 <= n < |resources| && KeysFirst(resources, n, scoMap) && !IsSco(resources[n])
    ensures KeysFirst(resources, n + 1, scoMap)
  {
    forall k | k in scoMap ensures exists j :: 0 <= j < n + 1 && IsSco(resources[j]) && resources[j].identifier == k {
      var j :| 0 <= j < n && IsSco(resources[j]) && resources[j].identifier == k;
      assert 0 <= j < n + 1;
    }
    forall j | 0 <= j < n + 1 && IsSco(resources[j]) ensures resources[j].identifier in scoMap {
      assert j < n;
    }
  }

  /** Reading one more resource that is not an SCO leaves the entries as they are. */
  lemma EntriesFirstSkip(resources: seq<Resource>, n: int, scoMap: map<string, seq<string>>)
    requires 0 <= n < |resources| && EntriesFirst(resources, n, scoMap) && !IsSco(resources[n])
    ensures EntriesFirst(resources, n + 1, scoMap)
  {
    forall j | 0 <= j < n + 1 && LastScoWithItsIdentifier(resources, n + 1, j)
      ensures resources[j].identifier in scoMap && scoMap[resources[j].identifier] == Dependencies(resources[j].children)
    {
      assert j < n;
      LastScoAmongFewer(resources, n, j);
    }
  }

  /**
   * mapDependencies: for every SCO resource, in document order, its identifier mapped to
   * the identifierrefs of its `dependency` children; a later SCO with the same identifier
   * replaces an earlier one's entry.
   */
  method MapDependencies(resources: seq<Resource>) returns (scoMap: map<string, seq<string>>)
    ensures forall k :: k in scoMap <==>
      exists j :: 0 <= j < |resources| && IsSco(resources[j]) && resources[j].identifier == k
    ensures forall j :: 0 <= j < |resources| && LastScoWithItsIdentifier(resources, |resources|, j) ==>
      scoMap[resources[j].identifier] == Dependencies(resources[j].children)
  {
    scoMap := map[];
    for i := 0 to |resources|
      invariant MapsFirst(resources, i, scoMap)
    {
      var sco := resources[i];
      if IsSco(sco) {
        KeysFirstSco(resources, i, scoMap);
        EntriesFirstSco(resources, i, scoMap);
        var children := sco.children;
        var idrefs := [];
        for c := 0 to |children|
          invariant idrefs == Dependencies(children[..c])
        {
          DependenciesPrefixStep(children, c);
          if children[c].Dependency? {
            idrefs := idrefs + [children[c].identifierref];
          }
        }
        assert children[..|children|] == children;
        scoMap := scoMap[sco.identifier := idrefs];
      } else {
        KeysFirstSkip(resources, i, scoMap);
        EntriesFirstSkip(resources, i, scoMap);
      }
    }
  }

  /**
   * The accumulator loop of processDeps for one SCO: for each declared module, its ICNs,
   * then each new nested reference not yet accumulated followed by that module's ICNs.
   * Fails on the first reference getResourceHref cannot resolve.
   */
  method CollectDependencies(env: Env, scoKey: string, scoResource: Resource, modules: seq<string>)
    returns (r: Result<seq<string>, Error>)
    ensures r == Accumulate(env, scoKey, Dependencies(scoResource.children), [], modules)
  {
    ghost var scoDeps := Dependencies(scoResource.children);
    ghost var whole := Accumulate(env, scoKey, scoDeps, [], modules);
    var dependencies: seq<string> := [];
    for i := 0 to |modules|
      invariant whole == Accumulate(env, scoKey, scoDeps, dependencies, modules[i..])
    {
      var strCurrent := modules[i];
      var dmDoc := GetResourceHref(env, scoKey, strCurrent);
      if dmDoc.Failure? {
        return Failure(dmDoc.error);
      }
      dependencies := AddICNDependencies(dependencies, dmDoc.value);
      var dmrefs := SearchForDmRefs(dmDoc.value, scoResource);
      assert modules[i..][1..] == modules[i + 1..];
      for j := 0 to |dmrefs|
        invariant whole == Resume(env, scoKey, scoDeps, ExpandNested(env, scoKey, dependencies, dmrefs[j..]), modules[i + 1..])
      {
        var dmref := dmrefs[j];
        assert dmrefs[j..][1..] == dmrefs[j + 1..];
        if dmref !in dependencies {
          dependencies := dependencies + [dmref];
          var dmRefDoc := GetResourceHref(env, scoKey, dmref);
          if dmRefDoc.Failure? {
            return Failure(dmRefDoc.error);
          }
          dependencies := AddICNDependencies(dependencies, dmRefDoc.value);
        }
      }
    }
    return Success(dependencies);
  }

  /**
   * Slot i of the manifest after processDeps has handled every SCO key outside pending:
   * the first resource carrying a handled key has gained that SCO's accumulator as new
   * `dependency` children; every other resource is as it was.
   */
  ghost predicate SlotResolved(env: Env, scoMap: map<string, seq<string>>,
                               pending: set<string>, current: seq<Resource>, i: int)
    requires 0 <= i < |env.resources| == |current|
  {
    var orig := env.resources;
    var id := orig[i].identifier;
    if id in scoMap && id !in pending && FindResource(orig, id) == Some(i) then
      && ScoClosure(env, id, scoMap[id]).Success?
      && current[i] == orig[i].(children := orig[i].children + Edges(ScoClosure(env, id, scoMap[id]).value))
    else
      current[i] == orig[i]
  }

  ghost predicate Resolved(env: Env, scoMap: map<string, seq<string>>,
                           pending: set<string>, current: seq<Resource>)
  {
    && |current| == |env.resources|
    && forall i :: 0 <= i < |current| ==> SlotResolved(env, scoMap, pending, current, i)
  }

  /** Resolving a manifest changes no identifier and no href. */
  lemma ResolvedSameLocations(env: Env, scoMap: map<string, seq<string>>,
                              pending: set<string>, current: seq<Resource>)
    requires Resolved(env, scoMap, pending, current)
    ensures SameLocations(current, env.resources)
  {
    forall i | 0 <= i < |current|
      ensures current[i].identifier == env.resources[i].identifier && current[i].href == env.resources[i].href
    {
      assert SlotResolved(env, scoMap, pending, current, i);
    }
  }

  /**
   * A key still pending sits, in the partly resolved manifest, at the same first index and
   * with the same children as in the original one, so the accumulator built from the current
   * manifest is the original manifest's.
   */
  lemma PendingSlot(env: Env, scoMap: map<string, seq<string>>, pending: set<string>,
                    current: seq<Resource>, key: string)
    requires Resolved(env, scoMap, pending, current)
    requires key in pending && key in scoMap && FindResource(env.resources, key).Some?
    ensures FindResource(current, key) == FindResource(env.resources, key)
    ensures current[FindResource(env.resources, key).value] == env.resources[FindResource(env.resources, key).value]
    ensures Accumulate(Env(current, env.srcDir, env.loader), key,
                       Dependencies(current[FindResource(env.resources, key).value].children), [], scoMap[key])
         == ScoClosure(env, key, scoMap[key])
  {
    var idx := FindResource(env.resources, key).value;
    ResolvedSameLocations(env, scoMap, pending, current);
    var k := FindResource(current, key);
    assert k.value <= idx && idx <= k.value;
    assert SlotResolved(env, scoMap, pending, current, idx);
    AccumulateFrame(Env(current, env.srcDir, env.loader), env, key, Dependencies(current[idx].children), [], scoMap[key]);
  }

  /** Before processDeps handles any key, every slot is resolved: nothing has changed yet. */
  lemma ResolvedInitially(env: Env, scoMap: map<string, seq<string>>)
    ensures Resolved(env, scoMap, scoMap.Keys, env.resources)
  {
  }

  /** Handling one more pending key at its first resource keeps every slot resolved. */
  lemma ResolvedStep(env: Env, scoMap: map<string, seq<string>>, pending: set<string>,
                     current: seq<Resource>, key: string, idx: nat, edges: seq<string>)
    requires Resolved(env, scoMap, pending, current)
    requires key in pending && key in scoMap && FindResource(env.resources, key) == Some(idx)
    requires ScoClosure(env, key, scoMap[key]) == Success(edges)
    ensures Resolved(env, scoMap, pending - {key},
                     current[idx := current[idx].(children := current[idx].children + Edges(edges))])
  {
    assert SlotResolved(env, scoMap, pending, current, idx);
    var next := current[idx := current[idx].(children := current[idx].children + Edges(edges))];
    forall i | 0 <= i < |next| ensures SlotResolved(env, scoMap, pending - {key}, next, i) {
      assert SlotResolved(env, scoMap, pending, current, i);
    }
  }

  /** The tail of processDeps: one `dependency` element per accumulated identifier, after the existing children. */
  method AppendDependencies(children: seq<Child>, dependencies: seq<string>) returns (cs: seq<Child>)
    ensures cs == children + Edges(dependencies)
  {
    cs := children;
    for j := 0 to |dependencies|
      invariant cs == children + Edges(dependencies[..j])
    {
      EdgesPrefixStep(dependencies, j);
      cs := cs + [Dependency(dependencies[j])];
    }
    assert dependencies[..|dependencies|] == dependencies;
  }

  /** The imsmanifest.xml document: its `resource` elements, in document order. */
  class Manifest {
    var resources: seq<Resource>

    constructor (resources: seq<Resource>)
      ensures this.resources == resources
    {
      this.resources := resources;
    }

    /** addResources: one asset resource per URN-map entry, in map order, after the existing ones. */
    method AddResources(urnMap: seq<UrnEntry>)
      modifies this
      ensures resources == old(resources) + Assets(urnMap)
    {
      for i := 0 to |urnMap|
        invariant resources == old(resources) + Assets(urnMap)[..i]
      {
        assert Assets(urnMap)[..i + 1] == Assets(urnMap)[..i] + [AssetFor(urnMap[i])];
        resources := resources + [AssetFor(urnMap[i])];
      }
      assert Assets(urnMap)[..|urnMap|] == Assets(urnMap);
    }

    /**
     * processDeps: for each SCO key, in an order the model leaves open (a HashMap's), the
     * first resource with that identifier gains one `dependency` element per accumulated
     * identifier, in accumulator order, after its existing children. Every other resource
     * stays as it was. The first unresolved reference aborts the pass, leaving the SCOs
     * handled before it updated and the rest untouched.
     */
    method ProcessDeps(scoMap: map<string, seq<string>>, srcDir: string, loader: map<string, Document>)
      returns (outcome: Outcome<Error>)
      requires forall k :: k in scoMap ==> FindResource(resources, k).Some?
      modifies this
      ensures outcome.Pass? ==> Resolved(Env(old(resources), srcDir, loader), scoMap, {}, resources)
      ensures outcome.Fail? ==> exists k :: (
        && k in scoMap
        && ScoClosure(Env(old(resources), srcDir, loader), k, scoMap[k]) == Failure(outcome.error))
      ensures outcome.Fail? ==> exists pending :: (
        && pending <= scoMap.Keys
        && Resolved(Env(old(resources), srcDir, loader), scoMap, pending, resources))
    {
      ghost var orig := resources;
      ghost var origEnv := Env(orig, srcDir, loader);
      var remaining := scoMap.Keys;
      ResolvedInitially(origEnv, scoMap);
      while remaining != {}
        invariant remaining <= scoMap.Keys
        invariant forall k :: k in scoMap ==> FindResource(orig, k).Some?
        invariant Resolved(origEnv, scoMap, remaining, resources)
        decreases remaining
      {
        var scoKey :| scoKey in remaining;
        var current := resources;
        PendingSlot(origEnv, scoMap, remaining, current, scoKey);
        var idx := FindResource(current, scoKey).value;
        var scoResource := current[idx];
        var r := CollectDependencies(Env(current, srcDir, loader), scoKey, scoResource, scoMap[scoKey]);
        if r.Failure? {
          assert Resolved(origEnv, scoMap, remaining, resources);
          return Fail(r.error);
        }
        ResolvedStep(origEnv, scoMap, remaining, current, scoKey, idx, r.value);
        var children := AppendDependencies(scoResource.children, r.value);
        resources := current[idx := scoResource.(children := children)];
        remaining := remaining - {scoKey};
      }
      return Pass;
    }

    /**
     * The resolution pass as execute runs it: the assets first, then the SCO map read from
     * the extended manifest, then processDeps over that map.
     */
    method Resolve(urnMap: seq<UrnEntry>, srcDir: string, loader: map<string, Document>)
      returns (scoMap: map<string, seq<string>>, outcome: Outcome<Error>)
      modifies this
      ensures MapsFirst(old(resources) + Assets(urnMap), |old(resources) + Assets(urnMap)|, scoMap)
      ensures outcome.Pass? ==> Resolved(Env(old(resources) + Assets(urnMap), srcDir, loader), scoMap, {}, resources)
      ensures outcome.Fail? ==> exists k :: (
        && k in scoMap
        && ScoClosure(Env(old(resources) + Assets(urnMap), srcDir, loader), k, scoMap[k]) == Failure(outcome.error))
      ensures outcome.Fail? ==> exists pending :: (
        && pending <= scoMap.Keys
        && Resolved(Env(old(resources) + Assets(urnMap), srcDir, loader), scoMap, pending, resources))
    {
      AddResources(urnMap);
      scoMap := MapDependencies(resources);
      forall k | k in scoMap ensures FindResource(resources, k).Some? {
        var j :| 0 <= j < |resources| && IsSco(resources[j]) && resources[j].identifier == k;
      }
      outcome := ProcessDeps(scoMap, srcDir, loader);
    }
  }
}
