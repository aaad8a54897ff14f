# SCO dependency resolution of the S1000D-to-SCORM pre-processor

This project models the step of the toolkit's `PreProcess` command that runs once the
XSLT transform has produced `imsmanifest.xml`. The step completes the `dependency` lists of
the manifest's SCO resources:

- `addResources` appends one `webcontent`/`asset` resource per URN-map entry.
- `mapDependencies` maps each SCO identifier to the identifierrefs of its `dependency`
  children.
- `processDeps` walks each SCO's declared data modules. For each module it loads the module's
  document through `getResourceHref`. It collects the document's media (ICN) identifiers with
  `searchForICN` / `addICNDependencies`. It then collects the data modules the document
  refers to that the SCO does not already link (`searchForDmRefs`), one hop deep, each followed
  by that module's own ICNs. Finally it appends the collected identifiers to the SCO as new
  `dependency` elements.

Modelling choices:

- **The manifest** is a `class Manifest` holding a `seq<Resource>`. A resource has an
  identifier, a type, a SCORM type, an optional href and its `file` / `dependency` children in
  order. `AddResources` and `ProcessDeps` update the resource sequence in place, through loops.
- **A data-module document** is seen through two queries:
  - the `infoEntityIdent` values in document order;
  - the list that `DMParser.searchForDmRefs` returns for it.
- **The file system** is a loader map from path to document, together with the source
  directory.
- **Errors** are values:
  - `ResourceMap(reference, sco)` is the `ResourceMapException`.
  - `NoHrefSegment` is an href whose `split("/")` has no element.
  - `DocumentLoad` is a path the loader does not have.
- **Looping helpers** are methods.
  - `SearchForICN`, `AddICNDependencies`, `SearchForDmRefs`, `CollectDependencies` and
    `AppendDependencies` are each proved equal to a function of module `Closure`,
    `OrderedLists` or `ManifestModel`, and the properties are proved about those functions.
  - `MapDependencies` is proved directly against its own postcondition: the keys are the SCO
    identifiers, and each entry is the dependency list of the last SCO with that identifier.

Module layout:

- `Wrappers`: Option, Result, Outcome.
- `OrderedLists`: the ArrayList contains-then-add idiom.
- `JavaStrings`: `String.contains`, `replace`, the last element of `split("/")`.
- `ManifestModel`: the manifest records, resource lookup, `getResourceHref`, the asset records.
- `Closure`: the per-SCO accumulator as functions, and its lemmas.
- `PreProcess`: the methods and the `Manifest` class.
- `Scenarios`: small packages worked through.

## Model

| member | source | states |
|---|---|---|
| OrderedLists.AppendNew | src/bridge/toolkit/commands/PreProcess.java:400-408 | The contains-then-add scan of xs into a list. The list never shrinks and grows by at most one entry per scanned element; the lemmas below give its exact contents. |
| OrderedLists.AppendNewExtends | src/bridge/toolkit/commands/PreProcess.java:400-408 | The contains-then-add scan only appends. The old list stays a prefix. Every appended element comes from the scanned list and was absent before. Every scanned element ends up in the list. |
| OrderedLists.AppendNewMember | src/bridge/toolkit/commands/PreProcess.java:400-408 | After the scan, x is in the list exactly when it was in the list before or among the scanned elements. |
| OrderedLists.AppendNewNoDup | src/bridge/toolkit/commands/PreProcess.java:404-407 | A duplicate-free list stays duplicate-free under the contains-guarded add. |
| OrderedLists.AppendNewOrder | src/bridge/toolkit/commands/PreProcess.java:400-408 | The appended elements appear in order of their first occurrence in the scanned list. |
| OrderedLists.AppendNewConcat | src/bridge/toolkit/commands/PreProcess.java:350-370 | Scanning two lists in a row is the same as scanning their concatenation. This is what lets one accumulator be shared across a SCO's modules. |
| OrderedLists.AppendNewCovered | src/bridge/toolkit/commands/PreProcess.java:404-407 | Scanning only elements the list already holds leaves the list unchanged. |
| JavaStrings.Contains | src/bridge/toolkit/commands/PreProcess.java:486 | `s.contains(t)` holds exactly when t occurs in s at some position. |
| JavaStrings.RemoveAll | src/bridge/toolkit/commands/PreProcess.java:223 | `replace(pat, "")` with a non-empty pattern: one left-to-right pass dropping non-overlapping occurrences. The result is never longer than the input. |
| JavaStrings.RemoveAllAbsent | src/bridge/toolkit/commands/PreProcess.java:223 | `replace` leaves a string without the pattern unchanged. |
| JavaStrings.RemoveAllLeading | src/bridge/toolkit/commands/PreProcess.java:223 | `replace` drops a leading occurrence of the pattern and carries on after it. |
| JavaStrings.LastSplitSegment | src/bridge/toolkit/commands/PreProcess.java:439-440 | The last element of `split("/")` is absent exactly when the href is all slashes. Otherwise it is a slash-free piece of the href that starts the href or follows a slash, and only slashes come after it. It is empty only for an empty href. |
| JavaStrings.LastSegmentOfJoin | src/bridge/toolkit/commands/PreProcess.java:439-440 | For a directory ending in '/' joined with a plain file name, the last segment is the file name. |
| ManifestModel.Dependencies | src/bridge/toolkit/commands/PreProcess.java:289-300 | The identifierrefs read from a resource are exactly those of its `dependency` children, with no filtering. There is at most one per child. |
| ManifestModel.Edges | src/bridge/toolkit/commands/PreProcess.java:374-383 | The `dependency` elements written for an accumulator: one per identifier, in order, each carrying that identifier. |
| ManifestModel.DependenciesAppend | src/bridge/toolkit/commands/PreProcess.java:374-383 | Appending one `dependency` element per accumulated identifier extends the resource's dependency list by exactly the accumulator, in order. |
| ManifestModel.FindResource | src/bridge/toolkit/commands/PreProcess.java:431-433 | The single-node XPath lookup gives the first resource with the identifier, or none exactly when no resource has it. |
| ManifestModel.HrefOf | src/bridge/toolkit/commands/PreProcess.java:431-439 | An href is found exactly when the first resource with the identifier exists and carries an href, and the result is that first resource's href attribute. |
| ManifestModel.ResourcePath | src/bridge/toolkit/commands/PreProcess.java:435-447 | It fails with ResourceMapException(reference, SCO) exactly when there is no such resource or href. It fails with no segment exactly when the href is all slashes. Otherwise the path is srcDir + "//" + the last segment of the href. |
| ManifestModel.GetResourceHref | src/bridge/toolkit/commands/PreProcess.java:427-450 | Loading succeeds exactly when the path resolves and the loader has it, and the document is the one the loader holds at that path. A path the loader lacks gives DocumentLoad(path). A path error is passed on unchanged. |
| ManifestModel.GetResourceHrefFrame | src/bridge/toolkit/commands/PreProcess.java:427-450 | The lookup reads only identifiers and hrefs. Manifests that agree on those, with the same directory and loader, load the same document. |
| ManifestModel.AssetFor | src/bridge/toolkit/commands/PreProcess.java:222-238 | An asset resource has type webcontent and scormType asset, and its href is also the href of its single `file` child. |
| ManifestModel.Assets | src/bridge/toolkit/commands/PreProcess.java:219-247 | There is one asset per URN-map entry, in map order, and none of them is an SCO. |
| ManifestModel.AssetIdentifier | src/bridge/toolkit/commands/PreProcess.java:223 | A name "URN:S1000D:" + code, where code has no further prefix occurrence, gets identifier code. |
| ManifestModel.AssetResolves | src/bridge/toolkit/commands/PreProcess.java:222 | When an asset's target is a flat file name and its identifier is new, the asset resolves back to srcDir + "//" + target: getResourceHref undoes the "resources/s1000d/" prefix. |
| Closure.IcnRefs | src/bridge/toolkit/commands/PreProcess.java:512-531 | searchForICN as a function: the scan of the document's infoEntityIdent values into an empty list. It has no more entries than the document has values. |
| Closure.IcnRefsSpec | src/bridge/toolkit/commands/PreProcess.java:512-531 | searchForICN returns every distinct infoEntityIdent value, only those, with no duplicates, in order of first appearance. |
| Closure.LinkedBySnoc | src/bridge/toolkit/commands/PreProcess.java:480-490 | Reading one more dependency sets `found` exactly when that identifierref contains the reference, or keeps it if already set. |
| Closure.Unlinked | src/bridge/toolkit/commands/PreProcess.java:477-490 | The references kept are exactly those that no existing identifierref of the SCO contains as a substring. |
| Closure.NestedDmRefs | src/bridge/toolkit/commands/PreProcess.java:470-494 | searchForDmRefs as a function: the unlinked references scanned into an empty list, or nothing for a SCO without dependencies. It has no more entries than were reported. |
| Closure.NestedDmRefsSpec | src/bridge/toolkit/commands/PreProcess.java:470-494 | The result has no duplicates. It holds exactly the reported references that no SCO dependency contains. It is empty when the SCO has no dependency. It never holds an existing dependency. |
| Closure.ExpandNested | src/bridge/toolkit/commands/PreProcess.java:360-370 | The inner loop over one module's nested references: a reference not yet accumulated is added and followed by its document's ICNs, and is not expanded further. A failure is always the lookup error of one of the nested references. |
| Closure.Accumulate | src/bridge/toolkit/commands/PreProcess.java:350-371 | The loop over a SCO's declared modules: each module's ICNs, then its nested references. A failure is always the lookup error of some reference. |
| Closure.ScoClosure | src/bridge/toolkit/commands/PreProcess.java:347-371 | The accumulator processDeps builds for one SCO from a fresh list. It never holds an identifier twice. |
| Closure.AccumulateGrows | src/bridge/toolkit/commands/PreProcess.java:350-370 | The accumulator only grows at its end across the module loop. |
| Closure.ClosureCovers | src/bridge/toolkit/commands/PreProcess.java:347-371 | When the pass succeeds, every declared module's document loads. Each of its ICNs, and each of its nested references new to the SCO, is in the accumulator. |
| Closure.AccumulateFrame | src/bridge/toolkit/commands/PreProcess.java:343-371 | A SCO's accumulator depends on other resources only through their identifiers and hrefs, so dependencies appended to other SCOs do not change it. |
| Closure.ClosureIsDedupOfDiscovery | src/bridge/toolkit/commands/PreProcess.java:347-371 | If no media identifier of the package is also a data-module reference, the accumulator is the duplicate-free form of the discovery stream. That stream is, per declared module: its ICNs, then each nested reference followed by that module's ICNs. It fails exactly when the stream hits an unresolvable reference, with the same error. |
| PreProcess.SearchForICN | src/bridge/toolkit/commands/PreProcess.java:512-531 | The loop computes IcnRefs, the document's distinct ICNs in first-appearance order. |
| PreProcess.AddICNDependencies | src/bridge/toolkit/commands/PreProcess.java:395-411 | The loop appends the document's ICNs the list lacks, in scan order. The given list stays a prefix, and a duplicate-free list stays duplicate-free. |
| PreProcess.NestedDmRefsPrefixStep | src/bridge/toolkit/commands/PreProcess.java:491-494 | One more reported reference is kept exactly when the SCO has dependencies, none contains it and it is not already kept. |
| PreProcess.SearchForDmRefs | src/bridge/toolkit/commands/PreProcess.java:465-499 | The nested loops compute NestedDmRefs of the reported references against the SCO's dependencies. |
| PreProcess.MapDependencies | src/bridge/toolkit/commands/PreProcess.java:269-308 | The keys are exactly the SCO identifiers. For each identifier, the entry is the dependency list of the last SCO resource with it. |
| PreProcess.CollectDependencies | src/bridge/toolkit/commands/PreProcess.java:347-371 | The accumulator loop of one SCO computes Accumulate from an empty list, failing on the first reference that does not resolve. |
| PreProcess.AppendDependencies | src/bridge/toolkit/commands/PreProcess.java:374-383 | The loop writing the accumulator adds, after the existing children, exactly one `dependency` element per accumulated identifier, in order. |
| PreProcess.PendingSlot | src/bridge/toolkit/commands/PreProcess.java:343-358 | A SCO not yet handled is found at the same resource, with the same children, as in the original manifest. Its accumulator computed on the partly updated manifest equals the one on the original. |
| PreProcess.ResolvedStep | src/bridge/toolkit/commands/PreProcess.java:374-383 | Appending a SCO's accumulator as dependency elements to its resource, and touching nothing else, keeps every other slot as it was. |
| PreProcess.ResolvedSameLocations | src/bridge/toolkit/commands/PreProcess.java:374-383 | processDeps changes no identifier and no href. |
| PreProcess.Manifest.AddResources | src/bridge/toolkit/commands/PreProcess.java:214-249 | The manifest becomes the old resources followed by one asset per URN-map entry, in map order. |
| PreProcess.Manifest.ProcessDeps | src/bridge/toolkit/commands/PreProcess.java:325-385 | On success, for every SCO key the first resource with that identifier has gained one dependency element per accumulated identifier, in order, after its old children, and every other resource is unchanged. On failure, the error is some SCO's accumulator failure, the SCOs handled before it are updated and the rest are unchanged. |
| PreProcess.Manifest.Resolve | src/bridge/toolkit/commands/PreProcess.java:136-138 | Runs addResources, then mapDependencies on the extended manifest, then processDeps over that map, with the combined outcome. |
| Scenarios.OneHopOrder | src/bridge/toolkit/commands/PreProcess.java:350-370 | Module m1 shows media a twice and refers to m2, whose document shows b. The accumulator is a, m2, b: the ICN appears once, and the nested module comes right before its ICNs. |
| Scenarios.SharedMediaOnce | src/bridge/toolkit/commands/PreProcess.java:355 | Media shown by two declared modules of one SCO are listed once. |
| Scenarios.DanglingReference | src/bridge/toolkit/commands/PreProcess.java:442-445 | A declared module that no resource carries aborts the SCO with ResourceMap(module, SCO). |
| Scenarios.SubstringLinks | src/bridge/toolkit/commands/PreProcess.java:486 | Against an existing dependency "M10", reference "M1" is dropped, because it is a substring, while "M5" is kept. |
| Scenarios.OverlapSkipsNestedMedia | src/bridge/toolkit/commands/PreProcess.java:363-369 | When a media identifier doubles as a nested module reference, that module's ICNs are never collected. The accumulator then differs from the deduplicated discovery stream, so ClosureIsDedupOfDiscovery needs its hypothesis. |

## Left out

- `execute` and `doTransform`: the command plumbing, console output, the XSLT transform, temporary files and stream handling are not modelled. `Manifest.Resolve` stands for the three calls execute makes.
- URNMapper is not part of this model. The URN map is an input sequence of (name, target) entries, and the duplicate-URN exception raised there is out of scope.
- DMParser is not part of this model. `getDoc` is the loader map: a missing path gives `DocumentLoad`, and I/O and JDOM parse errors are not distinguished further. `DMParser.searchForDmRefs` is the document's `dmRefs` field, taken as given.
- XPath, namespaces and attribute quoting: lookups are typed queries over the resource sequence. An identifier containing a quote, which would break the XPath expression, is not modelled.
- Null attribute values are not modelled:
  - a `dependency` without identifierref, which would be added as null at line 299 or throw at line 486;
  - a URN entry without `name`.
  A missing `target` is modelled as the text "null", as string concatenation renders it.
- The `identifierref != ""` guard at line 297 compares references and holds for attribute values, so the model does not filter there.
- The same comparison at line 491 is false only while `identifierref` still holds the literal it was initialised with at line 479. The model reads it as "at least one `dependency` child was read", so a SCO without dependencies keeps no nested reference.
- Order across SCOs: processDeps iterates a HashMap, so the next key is an unspecified choice. No global order is claimed. `AccumulateFrame` and `PendingSlot` show that each SCO's result does not depend on the SCOs handled before it.
- Idempotence and the absence of self-edges are not claimed, because the code guarantees neither. The accumulator is not deduplicated against the SCO's existing `dependency` elements, so a second run appends again.
- Closure.ClosureIsDedupOfDiscovery: holds only under the hypothesis that no media identifier is also a data-module reference. `Scenarios.OverlapSkipsNestedMedia` shows that without it, the nested module's ICNs are skipped.
- An href consisting only of slashes makes `split("/")` return an empty array. The index then fails with an unchecked exception, not a `ResourceMapException`; the model keeps it apart as `NoHrefSegment`.
- Behaviour the model takes from the code as written, which a reader might expect otherwise:
  - SCOs are handled in map order, not manifest order.
  - A reference is dropped when an existing identifierref contains it as a substring, not only when it is equal to one.
  - The new `dependency` elements are not deduplicated against the existing ones.
