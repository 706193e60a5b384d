# JSON Pointer, JSON Patch and JSON Merge Patch, in Dafny

This project models the JSON-P 1.1 specification classes of
`geronimo-json-spec1-1` that edit JSON documents:

- `JsonPointer` (RFC 6901): the pointer grammar, the splitting and
  unescaping of reference tokens, and `getValue`, `add`, `replace` and
  `remove`. Each of them runs over the library's mutable tree of `NodeRef`
  nodes.
- `JsonPatch` (RFC 6902): `apply` executes a patch line by line. `diff`
  computes a patch between two documents.
- `JsonPatchBuilder`: an append-only list of operation objects.
- `JsonMergePatch.mergePatch` (RFC 7396).
- The quote rewriting in `JsonUtil.toJson`. It turns single-quoted strings
  into double-quoted ones before the text is parsed.

JSON values are a datatype: `Null`, `Bool`, `Num` with integer numbers only,
`Str`, `Arr` over a sequence and `Obj` over a map. A failure is a `Result`
error. Where the library throws an exception, the model returns an `Err`.

## How the pointer engine is modelled

`PointerSpec` states what a resolution and the four pointer operations
compute, as plain functions of the document and the decoded tokens.

- `Walk`/`Resolve` give one of three outcomes: an existing location, a new
  member under an existing object, or the slot after the last element of an
  existing array.
- `GetValue`, `TestValue`, `Add`, `Replace` and `Remove` are written on top
  of `Resolve`.

The library itself does not compute these values directly. It copies the
target into a tree of nodes, walks the tokens down that tree, edits one node
and folds the whole tree back into a value from the root. `NodeRefs.NodeTree`
models that tree as a class:

- The nodes live in one sequence and refer to each other by position.
- Each node holds its value, its parent, its array index (or -2), its member
  name and its children.
- The node methods (`AddChild`, `GetChild`, `RootOf`, `Rebuild`, …) change
  that sequence.

`ShadowModel.Denote` is what folding computes. `ShadowModel.Shadows(ns, k, hi, v)`
says that the nodes `[k, hi)` are the tree built for `v`. The modules
`ShadowModel`, `ShadowBuild`, `ShadowFold` and `ShadowEdit` prove three things:

- Building the tree and folding it gives the value back.
- One edit of a container node becomes the corresponding edit of the folded
  document.
- The fold of a subtree reads nothing outside it.

`JsonPointer.GetValue`, `Add`, `Replace` and `Remove` are methods that create
a `NodeTree`, walk it and edit it as the library does. Each method is proved
to return exactly the `PointerSpec` function of the same name.

The same split applies to patches:

- `PatchSpec.ApplySpec` is the meaning of a patch, as a function.
- `JsonPatch.Apply` is the loop over the lines, proved equal to it.
- `PatchDiff.Diff` is the recursive diff over builders. It is proved to
  produce a patch that turns the source into the target when no key holds
  '/' or '~' and none is empty.

Both follow the library as written, including the two defects listed under
"Findings"; the corrected behaviour is proved beside them.

## Model

| member | source | states |
|---|---|---|
| JsonValues.EmptyLike | src/main/java/javax/json/JsonPointer.java:462-464 | removing the whole document gives the empty structure of the same kind: an empty array for an array, an empty object otherwise |
| JsonValues.SetAt | src/main/java/javax/json/JsonPointer.java:437-451 | writing below the root keeps the kind of the top structure, the length of an array and the member names of an object |
| JsonValues.InsertElem | src/main/java/javax/json/JsonPointer.java:412-413 | adding into an array at index i puts the value at i, keeps the elements before i and shifts the later ones one place right |
| JsonValues.DeleteElem | src/main/java/javax/json/JsonPointer.java:468-471 | removing element i keeps the elements before i and shifts the later ones one place left |
| JsonValues.GetSetAt | src/main/java/javax/json/JsonPointer.java:437-451 | reading the location just written gives the written value |
| JsonValues.SetAtElsewhere | src/main/java/javax/json/JsonPointer.java:437-451 | a write at one location leaves every location on another branch unchanged |
| JsonValues.GetAtAppend | src/main/java/javax/json/JsonPointer.java:326-403 | locations compose: the value at p+q is the value at q below the value at p |
| JsonValues.SetAtAppend | src/main/java/javax/json/JsonPointer.java:428-435 | a write below p is a write at p of the sub-document with the inner write done |
| JsonValues.SetAtTwice | src/main/java/javax/json/JsonPointer.java:437-451 | of two writes at the same location the second one wins |
| JsonValues.SetAtSame | src/main/java/javax/json/JsonPointer.java:437-451 | writing back the value already at a location changes nothing |
| PointerSyntax.MatchesTokenIff | src/main/java/javax/json/JsonPointer.java:51 | a text after a '/' matches the rest of the pointer pattern exactly when every '~' in it starts `~0` or `~1` |
| PointerSyntax.MatchesPointerIff | src/main/java/javax/json/JsonPointer.java:41-51 | the pattern `(/([^~/]\|~[01])*)*` accepts a text exactly when it is empty or starts with '/' and every '~' is followed by '0' or '1' (both directions) |
| PointerSyntax.Segments | src/main/java/javax/json/JsonPointer.java:80 | the pieces between the '/' characters, none containing '/'; unlike `String.split` it keeps trailing empty pieces, which `PointerSyntax.NonEmpty` drops afterwards, so the tokens are the same |
| PointerSyntax.NonEmpty | src/main/java/javax/json/JsonPointer.java:82 | the tokenizer keeps only non-empty pieces |
| PointerSyntax.UnescapeAll | src/main/java/javax/json/JsonPointer.java:82 | every kept piece is unescaped, and no piece is added or lost |
| PointerSyntax.Tokens | src/main/java/javax/json/JsonPointer.java:316-322 | the empty pointer has no tokens, and any other pointer has at least one (a single "" when no piece is left) |
| PointerSyntax.Escape | src/main/java/javax/json/JsonPointer.java:41-51 | an escaped token contains no '/' and only the escapes `~0`/`~1`, and is empty only for the empty token |
| PointerSyntax.IndexText | src/main/java/javax/json/JsonPatch.java:180-187 | the decimal text of an index is a run of digits without '/' or '~' |
| PointerSyntax.ParseIndexText | src/main/java/javax/json/JsonPointer.java:358 | reading back the decimal text of an index gives that index |
| PointerSyntax.ReplaceTildeOne | src/main/java/javax/json/JsonPointer.java:82 | the first replacement (`~1` to '/') turns an escaped token into the token with '~' still written `~0` |
| PointerSyntax.ReplaceTildeZero | src/main/java/javax/json/JsonPointer.java:82 | the second replacement (`~0` to '~') undoes the escaping of '~' |
| PointerSyntax.UnescapeEscape | src/main/java/javax/json/JsonPointer.java:82 | unescaping undoes escaping for every token, as section 4 of RFC 6901 requires |
| PointerSyntax.UnescapeTildeZeroOne | src/main/java/javax/json/JsonPointer.java:82 | because `~1` is replaced first, `~01` decodes to `~1` and not to `/` |
| PointerSyntax.EscapePlain | src/main/java/javax/json/JsonPointer.java:82 | a token without '/' and '~' is written as it is |
| PointerSyntax.SegmentsSingle | src/main/java/javax/json/JsonPointer.java:80 | "/k" splits into an empty piece and k |
| PointerSyntax.SegmentsExtend | src/main/java/javax/json/JsonPointer.java:80 | appending "/k" to a text appends one piece k |
| PointerSyntax.NonEmptyAppend | src/main/java/javax/json/JsonPointer.java:82 | dropping empty pieces distributes over concatenation |
| PointerSyntax.UnescapeAllAppend | src/main/java/javax/json/JsonPointer.java:82 | unescaping distributes over concatenation |
| PointerSyntax.ExtendPointer | src/main/java/javax/json/JsonPointer.java:78-84 | appending "/" and an escaped non-empty token to a well-formed pointer appends exactly that token to its tokens |
| PointerSyntax.EncodeTokens | src/main/java/javax/json/JsonPointer.java:78-84 | a pointer written from non-empty tokens tokenizes back to those tokens |
| PointerSyntax.SlashPointerTokens | src/main/java/javax/json/JsonPointer.java:316-322 | "/" has the single token "" and "" has none |
| PointerSyntax.SingleTokenRoundTrip | src/main/java/javax/json/JsonPointer.java:78-84 | "/" followed by an escaped non-empty token is well-formed and tokenizes to that token |
| PointerSpec.Walk | src/main/java/javax/json/JsonPointer.java:326-403 | a successful walk names an existing location, a missing member of an existing object, or the end slot of an existing array |
| PointerSpec.Resolve | src/main/java/javax/json/JsonPointer.java:311-404 | the same, for the whole document |
| PointerSpec.Parse | src/main/java/javax/json/JsonPointer.java:55-61 | a text is accepted exactly when it matches the pointer pattern |
| PointerSpec.RootOnlyAtEmpty | src/main/java/javax/json/JsonPointer.java:316-318 | only the empty pointer resolves to the whole document |
| PointerSpec.GetValue | src/main/java/javax/json/JsonPointer.java:86-93 | at "" the document; a value returned is the value at an existing location; a pointer that resolves to a node that does not exist fails with "no such element" |
| PointerSpec.TestValue | src/main/java/javax/json/JsonPointer.java:95-102 | fails exactly when resolution fails; holds a value exactly when getValue succeeds, and then the same value |
| PointerSpec.Add | src/main/java/javax/json/JsonPointer.java:406-426 | at "" fails for lack of a parent; otherwise succeeds exactly when the pointer resolves |
| PointerSpec.Replace | src/main/java/javax/json/JsonPointer.java:437-451 | succeeds exactly when getValue does and, at "", the new value is a structure; below the root the document keeps its kind |
| PointerSpec.Remove | src/main/java/javax/json/JsonPointer.java:453-473 | succeeds exactly when getValue does; at "" gives the empty structure of the document's kind |
| PointerSpec.GetValueAt | src/main/java/javax/json/JsonPointer.java:55-61 | a text that does not match the pointer pattern fails as an invalid pointer; any other is getValue on its tokens |
| PointerSpec.AddAt | src/main/java/javax/json/JsonPointer.java:55-61 | the same for add |
| PointerSpec.ReplaceAt | src/main/java/javax/json/JsonPointer.java:55-61 | the same for replace |
| PointerSpec.RemoveAt | src/main/java/javax/json/JsonPointer.java:55-61 | the same for remove |
| PointerSpec.Render | src/main/java/javax/json/JsonPointer.java:326-403 | a location has as many tokens as steps, one token per step of the walk |
| PointerSpec.RenderAppend | src/main/java/javax/json/JsonPointer.java:326-403 | the tokens of a joined location are the tokens of its parts |
| PointerSpec.LastStep | src/main/java/javax/json/JsonPointer.java:411-418 | the parent of an existing location exists |
| PointerSpec.PrefixHas | src/main/java/javax/json/JsonPointer.java:326-403 | every prefix of an existing location exists |
| PointerSpec.WalkAlong | src/main/java/javax/json/JsonPointer.java:326-403 | resolving the tokens of an existing location followed by more tokens goes to that location and continues from its value |
| PointerSpec.WalkAlongMember | src/main/java/javax/json/JsonPointer.java:332-336 | the member case of that walk |
| PointerSpec.WalkAlongElement | src/main/java/javax/json/JsonPointer.java:345-370 | the element case of that walk |
| PointerSpec.WalkMember | src/main/java/javax/json/JsonPointer.java:332-336 | an existing member's name as the next token moves the walk to that member |
| PointerSpec.WalkElement | src/main/java/javax/json/JsonPointer.java:357-370 | an existing element's decimal index moves the walk to that element |
| PointerSpec.WithinPathAt | src/main/java/javax/json/JsonPointer.java:326-403 | an existing location found below p is p followed by it |
| PointerSpec.WithinPathNew | src/main/java/javax/json/JsonPointer.java:339-343 | a new member found below p is a new member under p followed by its parent |
| PointerSpec.WithinPathErr | src/main/java/javax/json/JsonPointer.java:326-403 | an error below p is the same error |
| PointerSpec.ResolveExisting | src/main/java/javax/json/JsonPointer.java:311-404 | the tokens of any existing location resolve to that location |
| PointerSpec.ResolveBelow | src/main/java/javax/json/JsonPointer.java:326-403 | one more token below an existing location is resolved from the value there |
| PointerSpec.WalkArrayIndex | src/main/java/javax/json/JsonPointer.java:357-370 | an index below the length names that element |
| PointerSpec.WalkArrayEnd | src/main/java/javax/json/JsonPointer.java:349-367 | "-" or the index equal to the length, as the last token, names the end slot |
| PointerSpec.WalkObjectMember | src/main/java/javax/json/JsonPointer.java:332-344 | a last token on an object names the member when it exists, and the new member otherwise |
| PointerSpec.GetAndReplaceExisting | src/main/java/javax/json/JsonPointer.java:86-93 | getValue at an existing location returns its value, and replace below the root writes the new value there |
| PointerSpec.ResolveElement | src/main/java/javax/json/JsonPointer.java:357-370 | an index token below the array's length, leading zeros allowed, resolves to that element |
| PointerSpec.ResolveEnd | src/main/java/javax/json/JsonPointer.java:349-367 | "-" or the length as the last token resolves to the end slot of that array |
| PointerSpec.ResolveMember | src/main/java/javax/json/JsonPointer.java:332-344 | a name resolves to the existing member, or to the place where it would be added |
| PointerSpec.AddInsertsElement | src/main/java/javax/json/JsonPointer.java:411-413 | add at an index below the length inserts there and shifts the later elements right |
| PointerSpec.AddAppendsElement | src/main/java/javax/json/JsonPointer.java:420-422 | add at "-" or at the length appends |
| PointerSpec.ArrayTokenErrors | src/main/java/javax/json/JsonPointer.java:357-373 | an index beyond the length is out of bounds, and a token that is neither "-" nor digits is not an index, for get, add, replace and remove |
| PointerSpec.AddSetsMember | src/main/java/javax/json/JsonPointer.java:411-422 | add on an object sets the member, whether or not it was there |
| PointerSpec.RemoveDeletesElement | src/main/java/javax/json/JsonPointer.java:468-472 | remove of an element deletes it and shifts the later ones left |
| PointerSpec.RemoveDeletesMember | src/main/java/javax/json/JsonPointer.java:468-472 | remove of an existing member deletes it and only it |
| PointerSpec.MissingLocation | src/main/java/javax/json/JsonPointer.java:86-93 | get, replace and remove of a missing member or of the end slot fail with "no such element" |
| PointerSpec.MissingIntermediate | src/main/java/javax/json/JsonPointer.java:339-341 | a missing member before the last token ends the walk with "end reached" |
| PointerSpec.RootPointer | src/main/java/javax/json/JsonPointer.java:316-318 | at "" getValue returns the document, add fails for lack of a parent, remove empties the document, and replace needs a structure |
| PointerSpec.SlashPointer | src/main/java/javax/json/JsonPointer.java:320-322 | "/" names the member with the empty name |
| PointerSpec.ThroughScalar | src/main/java/javax/json/JsonPointer.java:374-397 | a scalar in an array, with one index token left, resolves to itself: "/0/5" on [1] gets 1, and add there inserts before it |
| PointerSpec.PlainToken | src/main/java/javax/json/JsonPointer.java:78-84 | "/t" for a token with nothing to escape tokenizes to t |
| PointerSpec.ExampleAppend | src/main/java/javax/json/JsonPointer.java:349-354 | add at "/-" on [1,2] appends |
| PointerSpec.ExampleInsert | src/main/java/javax/json/JsonPointer.java:411-413 | add at "/0" on [1,2] inserts in front |
| PointerSpec.ExampleRemoveMember | src/main/java/javax/json/JsonPointer.java:453-473 | remove at "/a" deletes member a |
| PointerSpec.ExampleOutOfBounds | src/main/java/javax/json/JsonPointer.java:360-361 | add at "/5" on a two-element array fails as out of bounds |
| ShadowModel.Keys | src/main/java/javax/json/JsonPointer.java:140-144 | one member name per child, in child order |
| ShadowModel.Vals | src/main/java/javax/json/JsonPointer.java:161-167 | one value per child, in child order |
| ShadowModel.KeyPos | src/main/java/javax/json/JsonPointer.java:230-232 | the position of the first child with the name, and no earlier child has that name; the length when there is none |
| ShadowModel.Without | src/main/java/javax/json/JsonPointer.java:469 | a list removal takes out the first occurrence of the node and keeps the others in order |
| ShadowModel.WithoutAt | src/main/java/javax/json/JsonPointer.java:469 | removing the node at its first position is removing that position |
| ShadowModel.InsertByIndex | src/main/java/javax/json/JsonPointer.java:150-156 | inserting into a list sorted by index keeps it a permutation with the new node added |
| ShadowModel.SortByIndex | src/main/java/javax/json/JsonPointer.java:150-156 | sorting children by index gives a permutation of them |
| ShadowModel.InsertSorted | src/main/java/javax/json/JsonPointer.java:150-156 | inserting into a sorted list keeps it sorted by index |
| ShadowModel.SortIsSorted | src/main/java/javax/json/JsonPointer.java:150-156 | the sort yields the children in index order |
| ShadowModel.SortSorted | src/main/java/javax/json/JsonPointer.java:150-156 | children already in index order stay in that order (the sort is stable) |
| ShadowModel.SortSameIndices | src/main/java/javax/json/JsonPointer.java:150-156 | the sort reads nothing but the index fields |
| ShadowModel.InsertSameIndices | src/main/java/javax/json/JsonPointer.java:150-156 | the same, for one insertion step |
| ShadowModel.MembersOf | src/main/java/javax/json/JsonPointer.java:138-145 | an object builder fed name/value pairs holds exactly the names fed, each with its last value |
| ShadowModel.MembersOfKeys | src/main/java/javax/json/JsonPointer.java:138-145 | the built object has exactly the names of the pairs |
| ShadowModel.MembersOfAt | src/main/java/javax/json/JsonPointer.java:138-145 | with distinct names, each pair's value is kept |
| ShadowModel.DistinctPrefix | src/main/java/javax/json/JsonPointer.java:138-145 | a prefix of distinct names is distinct |
| ShadowModel.MembersOfExact | src/main/java/javax/json/JsonPointer.java:179-185 | distinct names covering an object's members, each with its member's value, rebuild that object |
| ShadowModel.KidVals | src/main/java/javax/json/JsonPointer.java:131-135 | one folded value per child, in order |
| ShadowModel.ShadowsUnfold | src/main/java/javax/json/JsonPointer.java:174-192 | the tree built for a structure has one child per member or element, each the tree for that value |
| ShadowModel.ChildStretch | src/main/java/javax/json/JsonPointer.java:174-192 | a child's nodes lie inside its parent's nodes, after the child |
| ShadowModel.LayoutFrame | src/main/java/javax/json/JsonPointer.java:174-192 | the layout of a subtree depends only on its own nodes |
| ShadowModel.ShadowsFrame | src/main/java/javax/json/JsonPointer.java:174-192 | a built tree stays the tree for its value when nodes outside it change |
| ShadowModel.ElementsFrame | src/main/java/javax/json/JsonPointer.java:186-190 | the array case of that |
| ShadowModel.MembersFrame | src/main/java/javax/json/JsonPointer.java:179-185 | the object case of that |
| ShadowModel.ObjectChild | src/main/java/javax/json/JsonPointer.java:179-185 | each child of an object's tree carries index -2, names a member of the object, and is the tree for that member's value |
| ShadowModel.KidShadows | src/main/java/javax/json/JsonPointer.java:174-192 | each child is the tree built for its value |
| ShadowModel.ObjectKeys | src/main/java/javax/json/JsonPointer.java:179-185 | the children of an object's tree carry distinct names, and these are exactly its member names |
| ShadowModel.FoldArray | src/main/java/javax/json/JsonPointer.java:148-170 | an array node whose children are in index order folds to their values in that order |
| ShadowModel.FoldObject | src/main/java/javax/json/JsonPointer.java:137-146 | an object node whose children carry distinct names folds to those members |
| ShadowModel.DenoteShadow | src/main/java/javax/json/JsonPointer.java:121-192 | folding the tree built for a value gives that value back |
| ShadowModel.KidKept | src/main/java/javax/json/JsonPointer.java:121-172 | a child whose nodes did not change still folds to its value |
| ShadowModel.HasHead | src/main/java/javax/json/JsonPointer.java:326-403 | the first step of an existing location exists |
| ShadowModel.ChildSpanShadows | src/main/java/javax/json/JsonPointer.java:221-232 | the child found for an existing step is the tree built for that member or element |
| ShadowModel.SpanShadows | src/main/java/javax/json/JsonPointer.java:326-403 | the node found for an existing location is the tree built for the value there |
| ShadowModel.SpanAppend | src/main/java/javax/json/JsonPointer.java:326-403 | one more step of a location is one more child step from its node |
| ShadowModel.OtherKids | src/main/java/javax/json/JsonPointer.java:121-172 | an edit inside one child leaves the node and the other children as they were |
| ShadowModel.SameLabels | src/main/java/javax/json/JsonPointer.java:121-172 | an edit inside one child keeps every child's index and name |
| ShadowModel.StepArray | src/main/java/javax/json/JsonPointer.java:148-170 | changing one element's subtree changes that element of the folded array and no other |
| ShadowModel.MembersAfterEdit | src/main/java/javax/json/JsonPointer.java:138-145 | distinct names with one value changed build the object with that member changed |
| ShadowModel.StepObject | src/main/java/javax/json/JsonPointer.java:137-146 | changing one member's subtree changes that member of the folded object and no other |
| ShadowModel.StepAny | src/main/java/javax/json/JsonPointer.java:121-172 | changing the subtree of one child writes its new fold at that step |
| ShadowModel.EditedStep | src/main/java/javax/json/JsonPointer.java:121-172 | an edit confined to a node below a child is confined to that child |
| ShadowModel.WriteThrough | src/main/java/javax/json/JsonPointer.java:121-172 | the write inside a child followed by the write of the child is one write at the full location |
| ShadowModel.Propagate | src/main/java/javax/json/JsonPointer.java:428-435 | after an edit of only the node of location p, folding the whole tree writes that node's new fold at p and leaves the rest of the document as it was |
| ShadowBuild.InsertChild | src/main/java/javax/json/JsonPointer.java:206-209 | a child goes to position `index` when that is not negative, and to the end otherwise; the other children keep their order |
| ShadowBuild.AppendLayout | src/main/java/javax/json/JsonPointer.java:194-211 | appending a child after a node's subtree extends that subtree to the new end |
| ShadowBuild.AppendKept | src/main/java/javax/json/JsonPointer.java:194-211 | children that were there before keep their trees |
| ShadowBuild.ObjectStart | src/main/java/javax/json/JsonPointer.java:179-181 | an object node without children is built for no member yet |
| ShadowBuild.ObjectStep | src/main/java/javax/json/JsonPointer.java:182-184 | one more member's tree appended makes the node built for one more member |
| ShadowBuild.MembersKept | src/main/java/javax/json/JsonPointer.java:182-184 | members added before keep their trees |
| ShadowBuild.AppendKeys | src/main/java/javax/json/JsonPointer.java:182-184 | the child names after the append are the old ones followed by the new child's |
| ShadowBuild.DistinctSnoc | src/main/java/javax/json/JsonPointer.java:182-184 | a name not yet used keeps the names distinct |
| ShadowBuild.ObjectDone | src/main/java/javax/json/JsonPointer.java:179-185 | with every member added, the node is the tree built for the object |
| ShadowBuild.ArrayStart | src/main/java/javax/json/JsonPointer.java:186-188 | an array node without children is built for no element yet |
| ShadowBuild.ArrayStep | src/main/java/javax/json/JsonPointer.java:188-190 | one more element's tree appended with its index makes the node built for one more element |
| ShadowBuild.ArrayDone | src/main/java/javax/json/JsonPointer.java:186-191 | with every element added, the node is the tree built for the array |
| ShadowBuild.ScalarDone | src/main/java/javax/json/JsonPointer.java:174-178 | a scalar's tree is a single node |
| ShadowFold.NoDupApart | src/main/java/javax/json/JsonPointer.java:114 | two positions of a child list without repeats hold different nodes |
| ShadowFold.UnderParent | src/main/java/javax/json/JsonPointer.java:105 | the subtree of a child lies inside the subtree of its parent |
| ShadowFold.NotUnderBefore | src/main/java/javax/json/JsonPointer.java:105 | no node created before a node lies in its subtree |
| ShadowFold.SiblingsApart | src/main/java/javax/json/JsonPointer.java:105 | two different children of the same parent have disjoint subtrees |
| ShadowFold.UnderBelow | src/main/java/javax/json/JsonPointer.java:105 | a node of a subtree is never before the subtree's top |
| ShadowFold.UnderSame | src/main/java/javax/json/JsonPointer.java:105 | arenas that agree on the parent fields have the same subtrees |
| ShadowFold.DenoteFrame | src/main/java/javax/json/JsonPointer.java:121-172 | the fold of a subtree reads nothing outside the subtree |
| ShadowFold.ChildFrame | src/main/java/javax/json/JsonPointer.java:131-135 | agreement on a subtree is agreement on each child's subtree |
| ShadowFold.DenoteSameKids | src/main/java/javax/json/JsonPointer.java:137-170 | a node whose children kept their names, indices and folds folds as before |
| ShadowFold.KeysSame | src/main/java/javax/json/JsonPointer.java:140-144 | nodes with the same names give the same name list |
| ShadowFold.SortedKidsSame | src/main/java/javax/json/JsonPointer.java:150-156 | children with the same indices sort the same way |
| ShadowFold.KidValsSame | src/main/java/javax/json/JsonPointer.java:161-167 | children with the same folds give the same values |
| ShadowFold.Folded | src/main/java/javax/json/JsonPointer.java:121-172 | a folded structure with children holds the value its children fold to; an array's children are then a permutation of the old ones in index order, and every other node keeps its children as they were |
| ShadowFold.ChildUnder | src/main/java/javax/json/JsonPointer.java:131-135 | a child is in its parent's subtree |
| ShadowFold.UnderTrans | src/main/java/javax/json/JsonPointer.java:105 | a subtree of a subtree is part of it |
| ShadowFold.NotUnderEarlier | src/main/java/javax/json/JsonPointer.java:131-135 | folding one child cannot touch the subtrees of the children folded before it |
| ShadowFold.FoldedFrame | src/main/java/javax/json/JsonPointer.java:121-172 | folding a node gives the same node in arenas that agree on its subtree |
| ShadowFold.TreeFolded | src/main/java/javax/json/JsonPointer.java:121-172 | replacing nodes by their folded form keeps the arena a tree |
| ShadowFold.FoldedKids | src/main/java/javax/json/JsonPointer.java:131-135 | folded children report their names, indices and folds |
| ShadowEdit.OldKids | src/main/java/javax/json/JsonPointer.java:194-211 | after a child is added to a node, its older children still fold to their old values |
| ShadowEdit.SkipAt | src/main/java/javax/json/JsonPointer.java:469 | position x of a list with position j taken out is position x or x+1 of the original |
| ShadowEdit.ArrayKidsKept | src/main/java/javax/json/JsonPointer.java:412-413 | an array node's children keep their indices 0, 1, … and their folds after the edit |
| ShadowEdit.ArrayInsertFold | src/main/java/javax/json/JsonPointer.java:412-413 | a child put at position j with index j folds into the array with its value inserted at j: the stable sort keeps it before the old element j |
| ShadowEdit.InsertedKids | src/main/java/javax/json/JsonPointer.java:150-167 | the children with the new one at j are in index order and fold to the array with the value inserted at j |
| ShadowEdit.InsertPositions | src/main/java/javax/json/JsonPointer.java:206-207 | where each position of a list with a node put at j comes from |
| ShadowEdit.ArrayRemoveFold | src/main/java/javax/json/JsonPointer.java:468-471 | an emptied array node without its child at position j folds to the array without element j |
| ShadowEdit.RemainingKids | src/main/java/javax/json/JsonPointer.java:468-471 | the remaining children are in index order and fold to the array without element j |
| ShadowEdit.ObjectKidsKept | src/main/java/javax/json/JsonPointer.java:414-415 | an object node's children keep their names and folds after the edit |
| ShadowEdit.ObjectSetFold | src/main/java/javax/json/JsonPointer.java:414-415 | a child named k appended under an object folds to the object with member k set, replacing an old one |
| ShadowEdit.DenoteObject | src/main/java/javax/json/JsonPointer.java:137-146 | an object node with children folds to the members its children name |
| ShadowEdit.MembersOfSnoc | src/main/java/javax/json/JsonPointer.java:142 | one more name/value pair at the end sets that member |
| ShadowEdit.KidsSnoc | src/main/java/javax/json/JsonPointer.java:140-144 | names and folds of children with one appended are the old ones plus its own |
| ShadowEdit.DistinctWithout | src/main/java/javax/json/JsonPointer.java:469 | taking a name out keeps distinct names distinct |
| ShadowEdit.MembersWithout | src/main/java/javax/json/JsonPointer.java:469 | taking a name out of the names of an object leaves the names of the object without it |
| ShadowEdit.NamedWithout | src/main/java/javax/json/JsonPointer.java:469 | the same, for the names together with their values |
| ShadowEdit.KidsWithout | src/main/java/javax/json/JsonPointer.java:469 | names and folds of children with one taken out are the old ones without it |
| ShadowEdit.ObjectRemoveFold | src/main/java/javax/json/JsonPointer.java:468-471 | an emptied object node without its child named k folds to the object without member k |
| NodeRefs.TreeAppend | src/main/java/javax/json/JsonPointer.java:202-205 | a new node without children, whose parent exists, keeps the nodes a tree |
| NodeRefs.TreeInsert | src/main/java/javax/json/JsonPointer.java:206-209 | putting a node into its parent's child list keeps the nodes a tree |
| NodeRefs.InsertChildMembers | src/main/java/javax/json/JsonPointer.java:206-209 | the list with a node inserted holds that node and the old ones, without repeats |
| NodeRefs.TreeShrink | src/main/java/javax/json/JsonPointer.java:446-447 | keeping parent fields and shrinking child lists keeps the nodes a tree |
| NodeRefs.WithoutShrinks | src/main/java/javax/json/JsonPointer.java:469 | removal from a list removes one occurrence and nothing else |
| NodeRefs.UnderSomeUnder | src/main/java/javax/json/JsonPointer.java:131-135 | a node under one of the children is under the parent |
| NodeRefs.NotUnderKids | src/main/java/javax/json/JsonPointer.java:131-135 | a node is in none of its children's subtrees |
| NodeRefs.RebuildStep | src/main/java/javax/json/JsonPointer.java:131-135 | after folding one more child, the nodes folded so far are exactly those under the first children |
| NodeRefs.KeysValsSnoc | src/main/java/javax/json/JsonPointer.java:140-144 | the pairs for one more child are the old ones plus its own |
| NodeRefs.RebuildFrame | src/main/java/javax/json/JsonPointer.java:121-172 | after its children, the node itself is folded and everything else is as the children's folds left it |
| NodeRefs.FoldObjectNode | src/main/java/javax/json/JsonPointer.java:137-146 | an object node given the members its folded children name is folded |
| NodeRefs.KidsFolded | src/main/java/javax/json/JsonPointer.java:131-135 | once all children are folded, each one is folded and the node is as it was |
| NodeRefs.FoldArrayNode | src/main/java/javax/json/JsonPointer.java:148-170 | an array node whose folded children are sorted, given their values, is folded |
| NodeRefs.FoldedArray | src/main/java/javax/json/JsonPointer.java:148-170 | what folding an array node with children makes of it |
| NodeRefs.SortedFolded | src/main/java/javax/json/JsonPointer.java:150-156 | sorting folded children by index gives the order the fold uses, and they stay folded |
| NodeRefs.NodeTree.constructor | src/main/java/javax/json/JsonPointer.java:117-119 | the new tree is a tree of existing nodes, built for the target |
| NodeRefs.NodeTree.Materialize | src/main/java/javax/json/JsonPointer.java:174-192 | constructing a node appends the tree built for the value, with the given parent, index and name, and leaves earlier nodes alone |
| NodeRefs.NodeTree.AddMembers | src/main/java/javax/json/JsonPointer.java:179-185 | after the loop over the entries, the node's children are the trees of all members |
| NodeRefs.NodeTree.AddMember | src/main/java/javax/json/JsonPointer.java:183 | one entry adds the tree of one more member, with index -2 and its name |
| NodeRefs.NodeTree.AddElements | src/main/java/javax/json/JsonPointer.java:186-191 | after the loop, the node's children are the trees of all elements in order |
| NodeRefs.NodeTree.AddElement | src/main/java/javax/json/JsonPointer.java:189 | one step adds the tree of element i with index i |
| NodeRefs.NodeTree.AddChild | src/main/java/javax/json/JsonPointer.java:194-211 | a child (a tree for a value, or a placeholder without one) is put at position `index` of the parent's children, or at the end when `index` is negative; nothing else changes |
| NodeRefs.NodeTree.Insert | src/main/java/javax/json/JsonPointer.java:206-209 | the new state is the old one with the child inserted into the parent's list |
| NodeRefs.NodeTree.GetChild | src/main/java/javax/json/JsonPointer.java:230-232 | returns the first child with the name, and nothing when there is none |
| NodeRefs.NodeTree.RootOf | src/main/java/javax/json/JsonPointer.java:234-247 | walking up the parent fields ends at the root node |
| NodeRefs.NodeTree.SetVal | src/main/java/javax/json/JsonPointer.java:110-112 | only the value of the node changes |
| NodeRefs.NodeTree.ClearChildren | src/main/java/javax/json/JsonPointer.java:447 | only the node's child list changes, to empty |
| NodeRefs.NodeTree.RemoveChild | src/main/java/javax/json/JsonPointer.java:469 | only the parent's child list changes: the first occurrence of the child leaves it |
| NodeRefs.NodeTree.Rebuild | src/main/java/javax/json/JsonPointer.java:121-172 | rebuildFromChildren folds the node and every node under it, and touches no other node |
| NodeRefs.NodeTree.FoldChildren | src/main/java/javax/json/JsonPointer.java:131-135 | every child is folded, and only nodes under the children change |
| NodeRefs.NodeTree.FoldNode | src/main/java/javax/json/JsonPointer.java:137-170 | with its children folded, the node takes the value they fold to |
| NodeRefs.NodeTree.SetObject | src/main/java/javax/json/JsonPointer.java:137-146 | an object node takes the members its children name |
| NodeRefs.NodeTree.SetArray | src/main/java/javax/json/JsonPointer.java:148-170 | an array node sorts its children by index and takes their values in that order |
| NodeRefs.NodeTree.BuildObject | src/main/java/javax/json/JsonPointer.java:138-145 | the builder loop yields the object of the children's names and values, a later child winning |
| NodeRefs.NodeTree.BuildArray | src/main/java/javax/json/JsonPointer.java:149-168 | the builder loop yields the children's values in order |
| JsonPointer.NewPointer | src/main/java/javax/json/JsonPointer.java:55-61 | a text is accepted exactly when it matches the pattern; every other text is an invalid pointer |
| JsonPointer.WithinPathSnoc | src/main/java/javax/json/JsonPointer.java:326-403 | a result one step down from p is a result below p with that step |
| JsonPointer.WalkStart | src/main/java/javax/json/JsonPointer.java:324 | the walk starts at the root node, at the empty location |
| JsonPointer.WalkStep | src/main/java/javax/json/JsonPointer.java:336 | moving to the child for an existing step keeps the walk at the node of the longer location |
| JsonPointer.MemberWalk | src/main/java/javax/json/JsonPointer.java:332-336 | an existing member named by the next token continues the walk there |
| JsonPointer.ElementWalk | src/main/java/javax/json/JsonPointer.java:357-370 | an existing element named by the next token continues the walk there |
| JsonPointer.StepMember | src/main/java/javax/json/JsonPointer.java:334-336 | the member step of the walk |
| JsonPointer.StepElement | src/main/java/javax/json/JsonPointer.java:370 | the element step of the walk |
| JsonPointer.StepStops | src/main/java/javax/json/JsonPointer.java:326-403 | where the walk stops at a token, the resolution of the whole pointer stops the same way |
| JsonPointer.LocatedStop | src/main/java/javax/json/JsonPointer.java:403 | stopping with an error, or at the node of an existing location, leaves the tree untouched |
| JsonPointer.LocatedPlaceholder | src/main/java/javax/json/JsonPointer.java:343-367 | stopping at a new member or the end slot adds a placeholder child to the container's node |
| JsonPointer.Locate | src/main/java/javax/json/JsonPointer.java:311-404 | getValue0 ends as the resolution does: with its error and the tree untouched, at the node of an existing location, or at a new placeholder under the container that would receive the value |
| JsonPointer.WalkEnd | src/main/java/javax/json/JsonPointer.java:403 | with every token walked, the walk ends at the node of the resolved location |
| JsonPointer.OnObject | src/main/java/javax/json/JsonPointer.java:332-344 | a token on an object goes to the member, adds a placeholder for the last token, or fails with "end reached" |
| JsonPointer.OnArray | src/main/java/javax/json/JsonPointer.java:345-373 | a token on an array goes to the element, adds a placeholder at the end, or fails as not an index or out of bounds |
| JsonPointer.OnArrayEnd | src/main/java/javax/json/JsonPointer.java:349-367 | "-" or the length as the last token adds a placeholder at the end; otherwise "end reached" |
| JsonPointer.OnScalar | src/main/java/javax/json/JsonPointer.java:374-397 | a token on a scalar is accepted only as the last token, as an index, under an array, and the walk then stays at the scalar |
| JsonPointer.FoundNode | src/main/java/javax/json/JsonPointer.java:88-92 | the node found holds the value of an existing location, and is the root exactly for the empty location; a placeholder holds nothing |
| JsonPointer.ParentOf | src/main/java/javax/json/JsonPointer.java:411-415 | the node of q+[s] is a child of the node of q, carrying the index or name of s |
| JsonPointer.EditedAt | src/main/java/javax/json/JsonPointer.java:425 | folding after an edit of one node writes that node's new fold at its location |
| JsonPointer.ElementAdded | src/main/java/javax/json/JsonPointer.java:412-413 | a child put at position i of an array node inserts its fold into the array at i |
| JsonPointer.MemberAdded | src/main/java/javax/json/JsonPointer.java:414-415 | a child named k appended under an object node sets member k |
| JsonPointer.RemoveUnderAt | src/main/java/javax/json/JsonPointer.java:468-472 | an edited container written back at its location is the container edit of the document |
| JsonPointer.ChildRemoved | src/main/java/javax/json/JsonPointer.java:468-472 | emptying the parent and taking out the child removes that member or element from the fold |
| JsonPointer.ElementRemoved | src/main/java/javax/json/JsonPointer.java:468-471 | for an array parent, the element at that index is deleted |
| JsonPointer.MemberRemoved | src/main/java/javax/json/JsonPointer.java:468-471 | for an object parent, the member of that name is deleted |
| JsonPointer.SameKeyPos | src/main/java/javax/json/JsonPointer.java:230-232 | two trees that agree on the children find the same first child of a name |
| JsonPointer.RootResult | src/main/java/javax/json/JsonPointer.java:433-434 | a root that folds to a structure is returned, and any other value is refused |
| JsonPointer.Filled | src/main/java/javax/json/JsonPointer.java:420-422 | add at a new location: the placeholder given the value folds to the document with the member set or the element appended |
| JsonPointer.FilledMember | src/main/java/javax/json/JsonPointer.java:343 | the member case of that |
| JsonPointer.FilledEnd | src/main/java/javax/json/JsonPointer.java:354-367 | the end-slot case of that |
| JsonPointer.Replaced | src/main/java/javax/json/JsonPointer.java:446-449 | the found node given the value and no children folds to the document with the value there |
| JsonPointer.ParentKind | src/main/java/javax/json/JsonPointer.java:412-415 | the parent of a node below the root is the node of the shorter location, an array exactly when the last step is an index |
| JsonPointer.Removed | src/main/java/javax/json/JsonPointer.java:466-472 | the emptied parent without the node folds to the document without that location |
| JsonPointer.EditedTwice | src/main/java/javax/json/JsonPointer.java:468-469 | setting the parent's value and then removing the child is one edit of that node |
| JsonPointer.FoldNodesFrom | src/main/java/javax/json/JsonPointer.java:428-435 | the result is the fold of the whole tree when that is a structure, and an error otherwise |
| JsonPointer.GetValue | src/main/java/javax/json/JsonPointer.java:86-93 | getValue on the node tree returns exactly the value the resolution names, with the same errors |
| JsonPointer.TestValue | src/main/java/javax/json/JsonPointer.java:95-102 | testValue returns the value, nothing for a location that does not exist yet, or the resolution's error |
| JsonPointer.Add | src/main/java/javax/json/JsonPointer.java:406-426 | add on the node tree computes the add of the pointer semantics: insert into an array, set a member, append at the end slot, fail at the root |
| JsonPointer.AddBeside | src/main/java/javax/json/JsonPointer.java:411-419 | add at an existing location puts a sibling into the parent at the same index or under the same name |
| JsonPointer.Replace | src/main/java/javax/json/JsonPointer.java:437-451 | replace on the node tree computes the replace of the pointer semantics |
| JsonPointer.Remove | src/main/java/javax/json/JsonPointer.java:453-473 | remove on the node tree computes the remove of the pointer semantics, including the empty structure at the root |
| JsonPointer.RemoveBelow | src/main/java/javax/json/JsonPointer.java:466-472 | remove below the root empties the parent, takes out the node and folds |
| PatchSpec.StringField | src/main/java/javax/json/JsonPatch.java:80 | a string member is read exactly when it is present and a string; otherwise the line is malformed |
| PatchSpec.ValueField | src/main/java/javax/json/JsonPatch.java:87 | a value member is read exactly when it is present |
| PatchSpec.OpName | src/main/java/javax/json/JsonPatch.java:85-118 | the name written for an operation is one of the six op names |
| PatchSpec.OpNames | src/main/java/javax/json/JsonPatch.java:85-118 | a name is one of the six op names exactly when some operation carries it |
| PatchSpec.DecodeLine | src/main/java/javax/json/JsonPatch.java:79-118 | a decoded line is an object whose "op", "path", and "value" or "from" give the operation; the unknown-op error comes exactly for a well-formed path and an op name that is not one of the six |
| PatchSpec.LineOf | src/main/java/javax/json/JsonPatchBuilder.java:50-182 | a written line is an object carrying the op name and the path |
| PatchSpec.DecodeLineOf | src/main/java/javax/json/JsonPatchBuilder.java:50-182 | a line the builder writes reads back as the same operation |
| PatchSpec.ApplyConcat | src/main/java/javax/json/JsonPatch.java:77-122 | a patch made of two parts runs the second part on the result of the first |
| PatchSpec.ApplySnoc | src/main/java/javax/json/JsonPatchBuilder.java:38-40 | a builder line added at the end runs its operation on the result of the lines before |
| PatchSpec.FailureAborts | src/main/java/javax/json/JsonPatch.java:77-122 | after a failing prefix nothing else takes effect |
| PatchSpec.ApplyOne | src/main/java/javax/json/JsonPatch.java:77-122 | a one-line patch is that line's operation |
| PatchSpec.ApplySpec | src/main/java/javax/json/JsonPatch.java:77-122 | the empty patch keeps the document; a patch that succeeds has every line well-formed |
| PatchSpec.Execute | src/main/java/javax/json/JsonPatch.java:85-120 | a path that is not a pointer fails as invalid, except for a move onto itself, which changes nothing; a passing test keeps the document |
| PatchSpec.Test | src/main/java/javax/json/JsonPatch.java:107-112 | succeeds exactly when the value at the path equals the given one, keeps the document, and otherwise reports a mismatch when the path exists |
| PatchSpec.Copy | src/main/java/javax/json/JsonPatch.java:113-117 | an invalid path fails as invalid; succeeds exactly when the value at `from` can be read and added at `path` |
| PatchSpec.MoveAsWritten | src/main/java/javax/json/JsonPatch.java:100-106 | onto itself changes nothing, even for a text that is not a pointer; an invalid path fails as invalid; success needs the value at `from` to exist and to be addable at `path` |
| PatchSpec.Move | src/main/java/javax/json/JsonPatch.java:100-106 | the corrected move of section 4.4 of RFC 6902: the same first two cases; success needs the value at `from` to exist and to be removable |
| PatchSpec.MoveAsWrittenElements | src/main/java/javax/json/JsonPatch.java:100-106 | the library's move between two indices of an array inserts first and then deletes the old index: toward the front the moved value ends at both indices, toward the back it lands one place before the index named |
| PatchSpec.MoveAsWrittenMembers | src/main/java/javax/json/JsonPatch.java:100-106 | between two different members the library's move and the corrected move both take the member out and set it under the new name |
| PatchSpec.AddThenRemoveMember | src/main/java/javax/json/JsonPatch.java:103-104 | the library's order on members, set then delete, gives the moved member under the new name only |
| PatchSpec.RemoveThenAddMember | src/main/java/javax/json/JsonPatch.java:100-106 | the corrected order on members, delete then set, gives the same |
| PatchSpec.TestKeepsDocument | src/main/java/javax/json/JsonPatch.java:107-112 | test never changes the document, and succeeds exactly when the value at the path equals the given one |
| PatchSpec.MoveToItself | src/main/java/javax/json/JsonPatch.java:102 | move onto the same path changes nothing, even for a text that is not a pointer |
| PatchSpec.MemberPointer | src/main/java/javax/json/JsonPointer.java:78-84 | "/" with a non-empty name escaped as section 4 of RFC 6901 says is the pointer to that member |
| PatchSpec.IndexPointer | src/main/java/javax/json/JsonPointer.java:78-84 | "/" with a decimal index is the pointer to that element |
| PatchSpec.OnMember | src/main/java/javax/json/JsonPointer.java:406-426 | get of a top-level member returns it, and add sets it |
| PatchSpec.OnElement | src/main/java/javax/json/JsonPointer.java:406-473 | get, remove and add at a top-level index read, delete and insert that element |
| PatchSpec.AtArrayEnd | src/main/java/javax/json/JsonPointer.java:362-367 | add at the length of a top-level array appends |
| PatchSpec.CopyMember | src/main/java/javax/json/JsonPatch.java:113-117 | copy between two members sets the target member and leaves the source member as it is |
| PatchSpec.ReinsertKeepsElements | src/main/java/javax/json/JsonPatch.java:100-106 | for the corrected `Move` of section 4.4 of RFC 6902, not the library's order: taking an element out and putting it back elsewhere gives a permutation |
| PatchSpec.MoveKeepsElements | src/main/java/javax/json/JsonPatch.java:100-106 | for the corrected `Move` of section 4.4 of RFC 6902, not the library's order: move between two indices of an array takes the element out and inserts it at the new index, and the result is a permutation of the array |
| PatchSpec.MoveElsewhere | src/main/java/javax/json/JsonPatch.java:100-106 | for the corrected `Move` of section 4.4 of RFC 6902: the same for two different indices |
| PatchSpec.MoveAsWrittenDuplicates | src/main/java/javax/json/JsonPatch.java:100-106 | the move as written, from "/1" to "/0" on [x, y], yields [y, y] |
| PatchSpec.MoveSwapsPair | src/main/java/javax/json/JsonPatch.java:100-106 | move as section 4.4 of RFC 6902 defines it, from "/1" to "/0" on [x, y], yields [y, x] |
| PatchSpec.FailedTestStops | src/main/java/javax/json/JsonPatch.java:109-111 | a failing test stops the patch with a value mismatch, whatever follows |
| JsonPatch.ApplyOperation | src/main/java/javax/json/JsonPatch.java:85-120 | each op run through the pointer engine computes exactly `PatchSpec.Execute`, the library's meaning of the op, including its add-then-remove move and its errors |
| JsonPatch.Apply | src/main/java/javax/json/JsonPatch.java:75-125 | the loop over the lines computes exactly `PatchSpec.ApplySpec`, the library's meaning of the patch, including its first error |
| PatchBuilder.JsonPatchBuilder.constructor | src/main/java/javax/json/JsonPatchBuilder.java:34-36 | a new builder holds no lines |
| PatchBuilder.JsonPatchBuilder.FromPatch | src/main/java/javax/json/JsonPatchBuilder.java:30-32 | a builder started from a patch holds its lines |
| PatchBuilder.JsonPatchBuilder.Add | src/main/java/javax/json/JsonPatchBuilder.java:50-57 | appends the add line and nothing else |
| PatchBuilder.JsonPatchBuilder.Remove | src/main/java/javax/json/JsonPatchBuilder.java:86-92 | appends the remove line and nothing else |
| PatchBuilder.JsonPatchBuilder.Replace | src/main/java/javax/json/JsonPatchBuilder.java:94-101 | appends the replace line and nothing else |
| PatchBuilder.JsonPatchBuilder.Move | src/main/java/javax/json/JsonPatchBuilder.java:130-137 | appends the move line and nothing else |
| PatchBuilder.JsonPatchBuilder.Copy | src/main/java/javax/json/JsonPatchBuilder.java:139-146 | appends the copy line and nothing else |
| PatchBuilder.JsonPatchBuilder.Test | src/main/java/javax/json/JsonPatchBuilder.java:148-155 | appends the test line and nothing else |
| PatchBuilder.JsonPatchBuilder.AddPatches | src/main/java/javax/json/JsonPatchBuilder.java:184-191 | appends every given line, in order |
| PatchBuilder.JsonPatchBuilder.Build | src/main/java/javax/json/JsonPatchBuilder.java:193-195 | returns the lines in call order |
| PatchBuilder.JsonPatchBuilder.Apply | src/main/java/javax/json/JsonPatchBuilder.java:38-40 | applying the builder applies its lines as a patch |
| PatchDiff.ElementPathNames | src/main/java/javax/json/JsonPatch.java:180-187 | the path of element i below the path of location l is the path of l+[i] |
| PatchDiff.ChildPathNames | src/main/java/javax/json/JsonPatch.java:212-219 | for a plain key (non-empty, no '/' or '~') the path the library writes, `path + "/" + k`, is the path of l+[k] |
| PatchDiff.PlainChildPath | src/main/java/javax/json/JsonPatch.java:212-219 | for a plain key the path the library writes is the path escaped as section 4 of RFC 6901 says |
| PatchDiff.EscapedChildPathNames | src/main/java/javax/json/JsonPointer.java:78-84 | the escaped path of any non-empty key below the path of l is the path of l+[k] |
| PatchDiff.Unchanged | src/main/java/javax/json/JsonPatch.java:179 | the empty patch writes back what is there |
| PatchDiff.Chain | src/main/java/javax/json/JsonPatch.java:180 | two patches that write the same location in turn write the second value |
| PatchDiff.Inside | src/main/java/javax/json/JsonPatch.java:180 | a write below a location of the written document is a write at that location |
| PatchDiff.InsideGet | src/main/java/javax/json/JsonPatch.java:180 | below a written location is what was written |
| PatchDiff.ReplaceLine | src/main/java/javax/json/JsonPatch.java:158-160 | the replace line writes the target at its location |
| PatchDiff.AppendLine | src/main/java/javax/json/JsonPatch.java:183 | an add line at the array's length appends |
| PatchDiff.RemoveElementLine | src/main/java/javax/json/JsonPatch.java:187 | a remove line at an index deletes that element |
| PatchDiff.SetMemberLine | src/main/java/javax/json/JsonPatch.java:215 | an add line at the library's path of a plain key sets that member |
| PatchDiff.RemoveMemberLine | src/main/java/javax/json/JsonPatch.java:219 | a remove line at the library's path of a plain key deletes that member |
| PatchDiff.ArrayStart | src/main/java/javax/json/JsonPatch.java:169-170 | before the loop, the empty builder leaves the array as it is |
| PatchDiff.ArrayEnd | src/main/java/javax/json/JsonPatch.java:193 | after every index the builder turns the source array into the target |
| PatchDiff.ArrayCommonReady | src/main/java/javax/json/JsonPatch.java:177-180 | the sub-diff of a common index runs on a document where that element is still the source's |
| PatchDiff.ArrayCommonDone | src/main/java/javax/json/JsonPatch.java:180 | after the sub-diff the element at the index is the target's |
| PatchDiff.ArraySame | src/main/java/javax/json/JsonPatch.java:179 | equal elements need no line |
| PatchDiff.ArrayAddDone | src/main/java/javax/json/JsonPatch.java:182-185 | an index only the target has is appended |
| PatchDiff.ArrayRemoveDone | src/main/java/javax/json/JsonPatch.java:186-190 | an index only the source has removes the element just after the target's length |
| PatchDiff.ObjectStart | src/main/java/javax/json/JsonPatch.java:200-202 | before the loop, the empty builder leaves the object as it is |
| PatchDiff.ObjectEnd | src/main/java/javax/json/JsonPatch.java:224 | after all keys the builder turns the source object into the target |
| PatchDiff.ObjectCommonReady | src/main/java/javax/json/JsonPatch.java:209-212 | the sub-diff of a common key, at the library's path of the key, runs on a document where that member is still the source's |
| PatchDiff.ObjectCommonDone | src/main/java/javax/json/JsonPatch.java:212 | after the sub-diff the member is the target's |
| PatchDiff.ObjectSame | src/main/java/javax/json/JsonPatch.java:211 | equal members need no line |
| PatchDiff.ObjectAddDone | src/main/java/javax/json/JsonPatch.java:214-217 | a key only the target has is added, by an add at the library's path of the key |
| PatchDiff.ObjectRemoveDone | src/main/java/javax/json/JsonPatch.java:218-221 | a key only the source has is removed, by a remove at the library's path of the key |
| PatchDiff.Diff | src/main/java/javax/json/JsonPatch.java:128-132 | applied to the source, the diff yields the target when every key at every depth is plain (non-empty, no '/' or '~'); equal documents give the empty patch |
| PatchDiff.DiffAt | src/main/java/javax/json/JsonPatch.java:134-163 | the patch at a path, with member paths written as the library writes them, turns the source at that location into the target and leaves the rest when every key is plain; values of different kinds give one replace line |
| PatchDiff.DiffArrays | src/main/java/javax/json/JsonPatch.java:165-194 | the array diff turns the source array into the target; equal arrays give no line |
| PatchDiff.DiffElement | src/main/java/javax/json/JsonPatch.java:172-190 | one index of the array diff: sub-diff where both arrays have unequal elements, an add where only the target has one, a remove at the target's length where only the source has one |
| PatchDiff.AddElement | src/main/java/javax/json/JsonPatch.java:182-185 | appends the add of the target's element at its index |
| PatchDiff.RemoveElement | src/main/java/javax/json/JsonPatch.java:186-190 | appends the remove at the target's length, where the offset puts it |
| PatchDiff.DiffCommon | src/main/java/javax/json/JsonPatch.java:177-181 | the sub-diff of a common index; nothing for equal elements |
| PatchDiff.DiffObjects | src/main/java/javax/json/JsonPatch.java:196-225 | the object diff, with member paths written as the library writes them, turns the source object into the target, whatever order the keys come in; equal objects give no line |
| PatchDiff.DiffMember | src/main/java/javax/json/JsonPatch.java:203-222 | one key of the object diff at the path `path + "/" + key`: a target-only key appends exactly its add line, a source-only key exactly its remove line, a key with equal values nothing, and a key with unequal values only appends (its sub-diff) |
| PatchDiff.TwoTokens | src/main/java/javax/json/JsonPointer.java:78-84 | "/a/b" for plain a and b has the two tokens a and b |
| PatchDiff.UnescapedKeyFails | src/main/java/javax/json/JsonPatch.java:218-219 | for a member named "a/b", the remove line with the key spliced in as written fails with "end reached" |
| PatchDiff.EscapedKeyRemoves | src/main/java/javax/json/JsonPatch.java:218-219 | the corrected half: with the key escaped as section 4 of RFC 6901 says, the remove line removes exactly that member, for any non-empty name |
| MergePatch.Merge | src/main/java/javax/json/JsonMergePatch.java:53-82 | a non-object patch replaces the target; an object patch gives an object without its null members, keeping the target's members it does not name, and nothing else |
| MergePatch.PartialStep | src/main/java/javax/json/JsonMergePatch.java:61-75 | one patch member merged: removed if null, otherwise set to its merge |
| MergePatch.PartialAll | src/main/java/javax/json/JsonMergePatch.java:77 | with every member merged the builder holds the merge |
| MergePatch.MergePatch | src/main/java/javax/json/JsonMergePatch.java:53-82 | mergePatch computes the merge of section 2 of RFC 7396 |
| MergePatch.MergedMember | src/main/java/javax/json/JsonMergePatch.java:68-72 | a non-null patch member is merged into the target's member, or into {} when there is none |
| MergePatch.MergeIdempotent | src/main/java/javax/json/JsonMergePatch.java:53-82 | applying the same merge patch twice is the same as once |
| MergePatch.RfcExample | src/main/java/javax/json/JsonMergePatch.java:53-82 | the example of section 1 of RFC 7396, with any values in place of its strings |
| MergePatch.InnerExample | src/main/java/javax/json/JsonMergePatch.java:63-66 | a null member removes that member |
| JsonUtil.ScanTo | src/main/java/javax/json/JsonUtil.java:43-81 | a rewriter inside a string has read at least one character, and never writes more characters than it read |
| JsonUtil.Normalised | src/main/java/javax/json/JsonUtil.java:34-82 | the text handed to the parser is never longer than the input |
| JsonUtil.ToJsonText | src/main/java/javax/json/JsonUtil.java:34-82 | the loop computes the rewriting, character by character |
| JsonUtil.PassThrough | src/main/java/javax/json/JsonUtil.java:35-37 | input without a single quote reaches the parser unchanged |
| JsonUtil.NoQuotesCopied | src/main/java/javax/json/JsonUtil.java:45-50 | without quotes nothing enters a string and every character is copied |
| JsonUtil.OutsideCopied | src/main/java/javax/json/JsonUtil.java:45-50 | outside a string a non-quote is copied |
| JsonUtil.QuoteOpens | src/main/java/javax/json/JsonUtil.java:76-80 | a quote outside a string opens one, written as a double quote, and remembers its kind |
| JsonUtil.UnescapedQuoteInside | src/main/java/javax/json/JsonUtil.java:63-74 | inside a string an unescaped quote closes it exactly when it is of the opening kind, written as a double quote; one of the other kind is dropped |
| JsonUtil.EscapesInside | src/main/java/javax/json/JsonUtil.java:47-62 | inside a string a backslash is dropped, an escaped double quote is kept escaped and an escaped single quote is kept bare |
| JsonUtil.SingleQuotedObject | src/main/java/javax/json/JsonUtil.java:34-82 | `{'a':'b'}` becomes `{"a":"b"}` |
| JsonUtil.SingleQuotedName | src/main/java/javax/json/JsonUtil.java:43-81 | the member name of that object becomes `"a"` |
| JsonUtil.EscapedSingleQuote | src/main/java/javax/json/JsonUtil.java:55-62 | `'x\'y'` becomes `"x'y"` |

## Left out

- Parsing and printing: `JsonUtil.toJson` hands the rewritten text to a JSON reader (JsonUtil.java:36 and :82). The model stops at the rewritten text, because the reader is not part of this model.
- Numbers are integers. Decimal and floating-point numbers are not modelled.
- Object member order: objects are maps. The order in which the library's object builders and `keySet` yield members is not modelled. The diff and the tree are proved for every order.
- `System.out.println`, `NodeRef.toString`, `JsonPointer.toString` and the node field `nestLevel` only feed output. They are not modelled.
- `equals` and `hashCode` of `JsonPointer` (src/main/java/javax/json/JsonPointer.java:64-71) compare the wrapped string with the other object, so two pointers are never equal. No operation uses them, and they are not modelled.
- The typed overloads `add(JsonObject…)`, `replace(JsonArray…)`, `apply(JsonObject)` and the others only cast the result of the `JsonStructure` version (JsonPointer.java:475-497, JsonPatch.java:227-233, JsonPatchBuilder.java:42-48). Only the `JsonStructure` versions are modelled. The `String`, `int` and `boolean` overloads of the builder wrap the argument as a `JsonValue`; they are covered by the `Json` versions. The fluent `return this` is left out.
- `JsonMergePatch.diff` (JsonMergePatch.java:84-86) throws "not implemented yet". The model has nothing to prove about it.
- Exceptions are errors of one `Result` type. Which exception class the library throws is not modelled. For a malformed patch line, which of several missing fields is reported first is not modelled either; the model reports every such line as malformed.
- A `null` path, pointer text or patch value cannot occur in the model. A `null` member name of an array child is modelled as the empty name; it is never read.
- Array index tokens are runs of ASCII decimal digits, read as unbounded numbers. `Integer.parseUnsignedInt` (JsonPointer.java:358 and :386) differs in both directions. Inputs the library resolves and the model rejects: a token with a leading '+' (`/+0` on `[a]` gives `a` at JsonPointer.java:370) or with non-ASCII decimal digits; the model reports them as not an index. Inputs the library rejects and the model resolves or reports differently: a run of digits above 2^32-1 fails with "Cannot parse" in the library; on an array the model reports it as out of bounds, and as the last token below a scalar element (JsonPointer.java:384-389) the model returns the scalar, so `/0/99999999999` on `[1]` gives `1`. A value from 2^31 to 2^32-1 turns negative in an `int`; on an array it fails at `getChildren().get` (JsonPointer.java:370) with an index exception, which the model reports as out of bounds.
- PatchDiff.Diff: the round trip is proved only for documents whose keys, at every depth, are plain: non-empty, without '/' and without '~'. The diff splices keys into paths unescaped (JsonPatch.java:212-219). A key with '/' addresses another member (see Findings). A key with '~' makes an invalid pointer or names another member. An empty key is dropped by the tokenizer (JsonPointer.java:82). Beyond the round trip, the contracts fix the add and remove lines written at each index and key, that equal values write nothing, and that unequal values only append their sub-diff; they do not fix the order of the keys in an object diff.
- PatchSpec.Move: states the move of section 4.4 of RFC 6902 (remove, then add), the corrected half of the first finding, not what the library does; the library's move is `PatchSpec.MoveAsWritten`.
- PatchSpec.ReinsertKeepsElements: states the move of section 4.4 of RFC 6902 (remove, then add), the corrected half of the first finding, not what the library does; the library's move is `PatchSpec.MoveAsWritten`.
- PatchSpec.MoveKeepsElements: states the move of section 4.4 of RFC 6902 (remove, then add), the corrected half of the first finding, not what the library does; the library's move is `PatchSpec.MoveAsWritten`.
- PatchSpec.MoveElsewhere: states the move of section 4.4 of RFC 6902 (remove, then add), the corrected half of the first finding, not what the library does; the library's move is `PatchSpec.MoveAsWritten`.
- PatchSpec.MoveSwapsPair: states the move of section 4.4 of RFC 6902 (remove, then add), the corrected half of the first finding, not what the library does; the library's move is `PatchSpec.MoveAsWritten`.
- PatchSpec.RemoveThenAddMember: states the move of section 4.4 of RFC 6902 (remove, then add), the corrected half of the first finding, not what the library does; the library's move is `PatchSpec.MoveAsWritten`.
- PatchDiff.ChildPath: states the escaped member path of section 4 of RFC 6901, the corrected half of the second finding; the diff itself writes `PatchDiff.ChildPathAsWritten`.
- PatchDiff.EscapedChildPathNames: states the escaped member path of section 4 of RFC 6901, the corrected half of the second finding; the diff itself writes `PatchDiff.ChildPathAsWritten`.
- PatchDiff.EscapedKeyRemoves: states the escaped member path of section 4 of RFC 6901, the corrected half of the second finding; the diff itself writes `PatchDiff.ChildPathAsWritten`.
- JsonUtil.ScanTo and JsonUtil.Normalised: their own ensures only bound the length of the output. The rewriting itself is fixed by JsonUtil.ToJsonText and by the lemmas beside it.
- `JsonPointer.getValue0` raising "leaf does not exist" or "does not exists" (JsonPointer.java:376-377, 398-400) cannot happen, because a placeholder is returned as soon as it is made. Those branches are left out of the model.

## Findings

| source | as written | input that shows it | evidently intended | confidence | as-written member | corrected member |
|---|---|---|---|---|---|---|
| src/main/java/javax/json/JsonPatch.java:100-106 | `move` adds the value at `path` first and then removes `from` from the result | the patch `[{"op":"move","from":"/1","path":"/0"}]` on `[x, y]` gives `[y, y]`: the insert at 0 shifts the original element 1 to index 2, and the remove at "/1" then deletes `x` | section 4.4 of RFC 6902: remove at `from`, then add at `path`, giving `[y, x]` | not executed | PatchSpec.MoveAsWrittenDuplicates | PatchSpec.MoveSwapsPair |
| src/main/java/javax/json/JsonPatch.java:212-219 | the object diff writes the member path as `path + "/" + key` without escaping the key | source `{"a/b": v}`, target `{}`: the diff writes a remove of "/a/b", which looks for member "a" and fails with "end reached" | section 4 of RFC 6901: the key written with `~0` and `~1`, so that the remove deletes member "a/b" | not executed | PatchDiff.UnescapedKeyFails | PatchDiff.EscapedKeyRemoves |

In both rows the model runs the code as written, and proves the corrected behaviour beside it:

- `PatchSpec.Execute` and `JsonPatch.ApplyOperation` move by add-then-remove, as `PatchSpec.MoveAsWritten` states. `PatchSpec.MoveAsWrittenElements` gives its result for any two indices, and `PatchSpec.MoveAsWrittenMembers` shows that between two members it agrees with `PatchSpec.Move`.
- `PatchDiff.DiffObjects` writes member paths with `PatchDiff.ChildPathAsWritten`. `PatchDiff.PlainChildPath` shows that this is the escaped `PatchDiff.ChildPath` whenever the key is plain, which is where `PatchDiff.Diff` is proved.
