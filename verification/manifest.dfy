/**
 * The imsmanifest.xml tree as the resolver sees it: a sequence of `resource` elements
 * under `resources`, each with its attributes and its `file` / `dependency` children,
 * together with the two queries the resolver makes of it (first resource with a given
 * identifier, and the document behind a resource's href).
 */
module ManifestModel {
  import opened Wrappers
  import opened JavaStrings

  /** A child element of a `resource`: `file href=...` or `dependency identifierref=...`. */
  datatype Child = File(href: string) | Dependency(identifierref: string)

  /** A `resource` element: identifier, type, adlcp:scormType, optional href, children in order. */
  datatype Resource = Resource(
    identifier: string,
    resourceType: string,
    scormType: string,
    href: Option<string>,
    children: seq<Child>)

  /** One entry of the URN map: the `name` attribute and the text of the `target` child, if any. */
  datatype UrnEntry = UrnEntry(name: string, target: Option<string>)

  /**
   * A parsed data module, seen through the two queries made of it: the values of every
   * `infoEntityIdent` attribute in document order, and what DMParser.searchForDmRefs
   * returns for it.
   */
  datatype Document = Document(infoEntityIdents: seq<string>, dmRefs: seq<string>)

  /** Why a resolution step aborts. */
  datatype Error =
    | ResourceMap(reference: string, sco: string)   // ResourceMapException(str_current, sco_key)
    | NoHrefSegment(reference: string)              // split("/") gave an empty array: index -1
    | DocumentLoad(path: string)                    // the loader has no document at this path

  /**
   * What the resolution steps read besides their arguments: the manifest's resources,
   * the resource package directory, and the document loader keyed by file path.
   */
  datatype Env = Env(resources: seq<Resource>, srcDir: string, loader: map<string, Document>)

  const UrnPrefix: string := "URN:S1000D:"
  const PackageDir: string := "resources/s1000d/"

  predicate IsSco(r: Resource) {
    r.scormType == "sco"
  }

  /** The identifierrefs of the `dependency` children, in child order. */
  function Dependencies(children: seq<Child>): (refs: seq<string>)
    ensures |refs| <= |children|
    ensures forall x :: x in refs <==> Dependency(x) in children
  {
    if children == [] then []
    else
      var rest := Dependencies(children[1..]);
      assert children == [children[0]] + children[1..];
      if children[0].Dependency? then [children[0].identifierref] + rest else rest
  }

  /** One more child extends the dependency list exactly when it is a `dependency` element. */
  lemma {:induction false} DependenciesSnoc(children: seq<Child>, c: Child)
    ensures Dependencies(children + [c])
      == Dependencies(children) + (if c.Dependency? then [c.identifierref] else [])
    decreases |children|
  {
    if children != [] {
      assert (children + [c])[1..] == children[1..] + [c];
      DependenciesSnoc(children[1..], c);
    } else {
      assert children + [c] == [c];
    }
  }

  /** Reading one more child of a list extends the dependency list of its prefix the same way. */
  lemma DependenciesPrefixStep(children: seq<Child>, c: nat)
    requires c < |children|
    ensures Dependencies(children[..c + 1])
      == Dependencies(children[..c]) + (if children[c].Dependency? then [children[c].identifierref] else [])
  {
    assert children[..c + 1] == children[..c] + [children[c]];
    DependenciesSnoc(children[..c], children[c]);
  }

  /** One `dependency` element per identifier, in order. */
  function Edges(refs: seq<string>): (cs: seq<Child>)
    ensures |cs| == |refs|
    ensures forall i :: 0 <= i < |refs| ==> cs[i] == Dependency(refs[i])
  {
    seq(|refs|, i requires 0 <= i < |refs| => Dependency(refs[i]))
  }

  /** One more identifier of a list adds one more `dependency` element for its prefix. */
  lemma EdgesPrefixStep(refs: seq<string>, j: nat)
    requires j < |refs|
    ensures Edges(refs[..j + 1]) == Edges(refs[..j]) + [Dependency(refs[j])]
  {
  }

  /** The dependency list of two child lists in a row is theirs in a row. */
  lemma {:induction false} DependenciesConcat(a: seq<Child>, b: seq<Child>)
    ensures Dependencies(a + b) == Dependencies(a) + Dependencies(b)
    decreases |a|
  {
    if a == [] {
      assert a + b == b;
    } else {
      assert (a + b)[0] == a[0] && (a + b)[1..] == a[1..] + b;
      DependenciesConcat(a[1..], b);
    }
  }

  /** Reading back the `dependency` elements written for a list gives that list. */
  lemma {:induction false} DependenciesOfEdges(refs: seq<string>)
    ensures Dependencies(Edges(refs)) == refs
    decreases |refs|
  {
    if refs != [] {
      var e := Edges(refs);
      assert e[0] == Dependency(refs[0]);
      assert e[1..] == Edges(refs[1..]);
      DependenciesOfEdges(refs[1..]);
    }
  }

  /** Appending dependency elements appends exactly their identifierrefs to the dependency list. */
  lemma DependenciesAppend(children: seq<Child>, refs: seq<string>)
    ensures Dependencies(children + Edges(refs)) == Dependencies(children) + refs
  {
    DependenciesConcat(children, Edges(refs));
    DependenciesOfEdges(refs);
  }

  /** Index of the first resource with the given identifier (the XPath selectSingleNode lookup). */
  function FindResource(resources: seq<Resource>, id: string): (k: Option<nat>)
    ensures k.None? <==> forall i :: 0 <= i < |resources| ==> resources[i].identifier != id
    ensures k.Some? ==>
      && k.value < |resources|
      && resources[k.value].identifier == id
      && forall i :: 0 <= i < k.value ==> resources[i].identifier != id
  {
    if resources == [] then None
    else if resources[0].identifier == id then Some(0)
    else
      match FindResource(resources[1..], id)
      case None => None
      case Some(k) => Some(k + 1)
  }

  /** A resource appended after all others is found only when no earlier one has its identifier. */
  lemma FindAppended(resources: seq<Resource>, r: Resource)
    requires FindResource(resources, r.identifier).None?
    ensures FindResource(resources + [r], r.identifier) == Some(|resources|)
  {
    var all := resources + [r];
    assert all[|resources|].identifier == r.identifier;
    assert FindResource(all, r.identifier).Some?;
  }

  /** Two manifests that agree on every resource's identifier and href resolve identically. */
  ghost predicate SameLocations(a: seq<Resource>, b: seq<Resource>) {
    |a| == |b| && forall i :: 0 <= i < |a| ==> a[i].identifier == b[i].identifier && a[i].href == b[i].href
  }

  /**
   * The href of the first resource with identifier ref; None stands for the null that
   * getResourceHref dereferences when there is no such resource or it has no href.
   */
  function HrefOf(resources: seq<Resource>, ref: string): (h: Option<string>)
    ensures h.Some? <==> exists i :: (
      && 0 <= i < |resources|
      && resources[i].identifier == ref
      && resources[i].href.Some?
      && forall j :: 0 <= j < i ==> resources[j].identifier != ref)
    ensures forall i :: (&& 0 <= i < |resources| && resources[i].identifier == ref
                         && forall j :: 0 <= j < i ==> resources[j].identifier != ref) ==> h == resources[i].href
  {
    match FindResource(resources, ref)
    case None => None
    case Some(k) => resources[k].href
  }

  /**
   * The file behind a referenced resource, srcDir + "//" + the last "/"-separated part of
   * its href; a missing resource or href is a ResourceMapException naming the reference
   * and the SCO, and an href of slashes only leaves split("/") with no last element.
   */
  function ResourcePath(resources: seq<Resource>, srcDir: string, scoKey: string, ref: string)
    : (r: Result<string, Error>)
    ensures r == Failure(ResourceMap(ref, scoKey)) <==> HrefOf(resources, ref).None?
    ensures r == Failure(NoHrefSegment(ref)) <==>
      HrefOf(resources, ref).Some? && AllSlashes(HrefOf(resources, ref).value)
    ensures r.Success? ==>
      && HrefOf(resources, ref).Some?
      && LastSplitSegment(HrefOf(resources, ref).value).Some?
      && r.value == srcDir + "//" + LastSplitSegment(HrefOf(resources, ref).value).value
  {
    match HrefOf(resources, ref)
    case None => Failure(ResourceMap(ref, scoKey))
    case Some(h) =>
      match LastSplitSegment(h)
      case None => Failure(NoHrefSegment(ref))
      case Some(seg) => Success(srcDir + "//" + seg)
  }

  /** getResourceHref: locate the referenced resource's file and load it. */
  function GetResourceHref(env: Env, scoKey: string, ref: string): (r: Result<Document, Error>)
    ensures r.Success? <==>
      ResourcePath(env.resources, env.srcDir, scoKey, ref).Success? &&
      ResourcePath(env.resources, env.srcDir, scoKey, ref).value in env.loader
    ensures r.Success? ==> r.value == env.loader[ResourcePath(env.resources, env.srcDir, scoKey, ref).value]
    ensures (&& ResourcePath(env.resources, env.srcDir, scoKey, ref).Success?
             && ResourcePath(env.resources, env.srcDir, scoKey, ref).value !in env.loader) ==>
      r == Failure(DocumentLoad(ResourcePath(env.resources, env.srcDir, scoKey, ref).value))
    ensures r.Success? ==> r.value in env.loader.Values
    ensures ResourcePath(env.resources, env.srcDir, scoKey, ref).Failure? ==>
      r == Failure(ResourcePath(env.resources, env.srcDir, scoKey, ref).error)
  {
    match ResourcePath(env.resources, env.srcDir, scoKey, ref)
    case Failure(e) => Failure(e)
    case Success(path) =>
      if path in env.loader then Success(env.loader[path]) else Failure(DocumentLoad(path))
  }

  /** The lookup reads nothing but identifiers and hrefs. */
  lemma {:induction false} GetResourceHrefFrame(a: Env, b: Env, scoKey: string, ref: string)
    requires SameLocations(a.resources, b.resources)
    requires a.srcDir == b.srcDir && a.loader == b.loader
    ensures GetResourceHref(a, scoKey, ref) == GetResourceHref(b, scoKey, ref)
  {
    var ka := FindResource(a.resources, ref);
    var kb := FindResource(b.resources, ref);
    if ka.None? {
      assert kb.None?;
    } else {
      assert kb.Some? && kb.value <= ka.value;
      assert kb == ka;
    }
    assert HrefOf(a.resources, ref) == HrefOf(b.resources, ref);
  }

  /** The `resource` element addResources builds for one URN-map entry. */
  function AssetFor(e: UrnEntry): (r: Resource)
    ensures r.resourceType == "webcontent" && r.scormType == "asset"
    ensures r.href.Some? && r.children == [File(r.href.value)]
  {
    // Java string concatenation renders a missing target as "null"
    var target := match e.target case Some(t) => t case None => "null";
    var href := PackageDir + target;
    Resource(RemoveAll(e.name, UrnPrefix), "webcontent", "asset", Some(href), [File(href)])
  }

  /** The asset resources addResources appends, one per URN-map entry, in map order. */
  function Assets(urnMap: seq<UrnEntry>): (rs: seq<Resource>)
    ensures |rs| == |urnMap|
    ensures forall i :: 0 <= i < |urnMap| ==> rs[i] == AssetFor(urnMap[i])
    ensures forall i :: 0 <= i < |rs| ==> !IsSco(rs[i])
  {
    seq(|urnMap|, i requires 0 <= i < |urnMap| => AssetFor(urnMap[i]))
  }

  /** A canonical URN name "URN:S1000D:" + code becomes the identifier code. */
  lemma AssetIdentifier(code: string, target: Option<string>)
    requires !Contains(code, UrnPrefix)
    ensures AssetFor(UrnEntry(UrnPrefix + code, target)).identifier == code
  {
    RemoveAllLeading(UrnPrefix, code);
    RemoveAllAbsent(code, UrnPrefix);
  }

  /**
   * An asset added for a flat file name resolves back to that file in the package directory:
   * getResourceHref undoes the "resources/s1000d/" prefix that addResources puts on.
   */
  lemma AssetResolves(resources: seq<Resource>, srcDir: string, scoKey: string, e: UrnEntry, target: string)
    requires e.target == Some(target) && target != [] && '/' !in target
    requires FindResource(resources, AssetFor(e).identifier).None?
    ensures ResourcePath(resources + [AssetFor(e)], srcDir, scoKey, AssetFor(e).identifier)
      == Success(srcDir + "//" + target)
  {
    FindAppended(resources, AssetFor(e));
    assert HrefOf(resources + [AssetFor(e)], AssetFor(e).identifier) == Some(PackageDir + target);
    LastSegmentOfJoin(PackageDir, target);
  }
}
