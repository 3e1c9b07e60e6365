# abi-to-sol struct declarations, modelled in Dafny

abi-to-sol turns a Solidity ABI JSON into Solidity source. This project
models the part that finds the struct types the ABI implies and prints the
ABI back as a comment:

- **Classification** (`Classifier`, parameters.ts and the `generateType` of
  the visitor): a parameter whose `type` starts with `tuple` is a struct.
  Its identifier is read from the `internalType` hint `struct [Container.]Name`
  with the regular expression `/struct ([^\[]+).*/` and a split on `.`.
- **Tuple signatures** (`TupleSignature`): the canonical `(t1,t2,...)`
  string that keys every struct declaration.
- **The declaration collector** of declarations/visitor.ts:
  - `VisitorMerge`: the merge of two collections;
  - `VisitorCollect`: the walk over ABI, entries and parameters;
  - `VisitorResolve`: naming anonymous structs `S_0`, `S_1`, … and
    back-filling struct components with those names;
  - `VisitorQueries`: the query object `collectDeclarations` returns;
  - `VisitorCompleteness`: what the pipeline guarantees end to end.
- **The older collector** of declarations.ts (`Legacy`). It has one
  declaration per signature, a last-writer-wins merge and an `S_n` counter
  in the visitor.
- **`toCompleteType`** of structs.ts (`Structs`).
- **`printAbi`** (`PrintAbi`). The ABI becomes a token stream, and the
  tokens are laid out greedily in lines of at most `breakLength`
  characters.

JavaScript objects are association lists (`AssocList`) that keep insertion
order. Exceptions are `Failure` values of a `Result`.

Where declarations/visitor.ts evidently does not do what it means to do, the
model follows the intent. The text as written is modelled next to it, with a
lemma that shows the difference (see "## Findings").

Where the code and its description disagree, the model follows the code:

- `Merge` is not commutative. Key order and candidate order follow the left
  operand.
- parameters.ts takes the first two parts of a hint with three or more
  dot-separated parts (`Classifier.ToType`). The visitor's `generateType`
  treats such a hint as no hint (`Classifier.GenerateType`).
- `globalDeclarations()` fails with a `TypeError` when no struct lives
  outside a container, because key `""` is then missing
  (`VisitorQueries.ScopedDeclarations`).

## Model

| member | source | states |
|---|---|---|
| Common.SynthesizedNameInjective | packages/abi-to-sol/src/declarations/visitor.ts:487 | Two `S_n` names are equal exactly when their numbers are, so distinct counter values give distinct names |
| TupleSignature.Signature | packages/abi-to-sol/src/declarations/visitor.ts:333-335 | No contract of its own: the canonical `(t1,...,tn)` text of the component types, nested tuples written recursively; `SignatureNameIndependent` and `NestedSignatureShorter` state its properties |
| TupleSignature.SignatureNameIndependent | packages/abi-to-sol/src/declarations/visitor.ts:333-335 | The tuple signature depends only on the component types and their nesting, never on names or internal types |
| TupleSignature.NestedSignatureShorter | packages/abi-to-sol/src/declarations/visitor.ts:333-335 | A nested tuple's signature is strictly shorter than the signature of the tuple that contains it |
| Classifier.StructHintCapture | packages/abi-to-sol/src/parameters.ts:59 | No capture iff `struct ` followed by a non-`[` occurs nowhere; otherwise the capture is the maximal non-`[` run after the leftmost such occurrence |
| Classifier.Split | packages/abi-to-sol/src/parameters.ts:71 | At least one part; no part contains `.`; joining the parts with `.` gives back the input |
| Classifier.SplitUnique | packages/abi-to-sol/src/parameters.ts:71 | Any dot-free parts that join to `s` are exactly `Split(s)`, so the split is the unique inverse of the join |
| Classifier.IsStructParameter | packages/abi-to-sol/src/parameters.ts:31-41 | No contract of its own: a parameter is a struct iff its `type` starts with `tuple`; `Classify` states that this decides struct versus elementary |
| Classifier.ToType | packages/abi-to-sol/src/parameters.ts:43-98 | Struct iff the type starts with `tuple`, else elementary with the raw type; no identifier iff no hint; one part names a global struct; otherwise the first part is the container and the second the name |
| Classifier.GenerateType | packages/abi-to-sol/src/declarations/visitor.ts:363-405 | As `ToType`, except that a hint with more than two parts gives no identifier |
| Classifier.Classify | packages/abi-to-sol/src/declarations/visitor.ts:363-405 | The shared classifier keeps the raw type (and, as the declared struct parameter type has it, the components), and takes its identifier from the hint's parts under the given naming policy |
| Classifier.HintRoundTrip | packages/abi-to-sol/src/parameters.ts:59-97 | The hint `struct [C.]N[...]` that the compiler writes for an identifier classifies back to that same identifier |
| Structs.IsCompleteType | packages/abi-to-sol/src/structs.ts:23-25 | No contract of its own: elementary, or a struct with an identifier; `ToCompleteType` promises it of every success |
| Structs.ToCompleteType | packages/abi-to-sol/src/structs.ts:27-50 | A complete type is returned unchanged; an anonymous struct borrows the identifier of the first entry under its signature and fails iff there is none; every success is complete |
| Structs.BorrowedIdentifierIsKnown | packages/abi-to-sol/src/structs.ts:37-48 | A borrowed identifier belongs to an entry recorded under the struct's signature |
| VisitorMerge.Empty | packages/abi-to-sol/src/declarations/visitor.ts:459-464 | No contract of its own: no signatures and no containers; `EmptyWellFormed`, `MergeEmptyLeft` and `MergeEmptyRight` state that it is well formed and the merge's identity |
| VisitorMerge.Merge | packages/abi-to-sol/src/declarations/visitor.ts:412-457 | No contract of its own (kept free of clauses so that the many proofs using it stay small); its laws are `MergeLookup`, `MergeContainerLookup`, `MergeKeys`, `MergeKeepsEverything` and `MergeInvariant` |
| VisitorMerge.AppendNewCandidates | packages/abi-to-sol/src/declarations/visitor.ts:430-444 | The existing candidates stay as a prefix; nothing foreign is added; every incoming identifier ends up present |
| VisitorMerge.AppendNewCandidatesDistinct | packages/abi-to-sol/src/declarations/visitor.ts:434-444 | The push-unless-found loop never introduces two candidates with equal identifiers |
| VisitorMerge.AppendNewCandidatesOfDistinct | packages/abi-to-sol/src/declarations/visitor.ts:434-444 | When no identifier repeats, the loop is plain concatenation |
| VisitorMerge.MergeLookup | packages/abi-to-sol/src/declarations/visitor.ts:416-445 | After a merge, a signature of `b` holds `a`'s list extended by `b`'s new candidates; any other signature keeps `a`'s list |
| VisitorMerge.MergeContainerLookup | packages/abi-to-sol/src/declarations/visitor.ts:447-454 | After a merge, a container of `b` holds the order-preserving set union of both lists; any other container keeps `a`'s list |
| VisitorMerge.MergeKeys | packages/abi-to-sol/src/declarations/visitor.ts:416-454 | Key order after a merge: `a`'s keys, then `b`'s new keys in their order |
| VisitorMerge.MergeKeepsEverything | packages/abi-to-sol/src/declarations/visitor.ts:412-457 | Every identifier recorded under a signature by either operand is recorded there after the merge |
| VisitorMerge.ExtendsTransitive | packages/abi-to-sol/src/declarations/visitor.ts:412-457 | Keeping everything is transitive, so a chain of merges keeps everything too |
| VisitorMerge.MergeClosedOfClosed | packages/abi-to-sol/src/declarations/visitor.ts:412-457 | Merging two collections without dangling struct references gives one without them |
| VisitorMerge.MergeWellFormed | packages/abi-to-sol/src/declarations/visitor.ts:412-457 | A merge keeps keys unique, signature lists non-empty with distinct identifiers, container lists duplicate-free, and every signature listed under its candidates' containers |
| VisitorMerge.MergeContainersWitnessed | packages/abi-to-sol/src/declarations/visitor.ts:447-454 | Every container key is non-empty and justified by a candidate in that container, before and after a merge |
| VisitorMerge.MergeInvariant | packages/abi-to-sol/src/declarations/visitor.ts:412-457 | Folding a well-formed, closed collection into a well-formed, closed accumulator keeps both properties |
| VisitorMerge.MergeEmptyRight | packages/abi-to-sol/src/declarations/visitor.ts:459-464 | `emptyDeclarations()` is a right identity of the merge |
| VisitorMerge.MergeEmptyLeft | packages/abi-to-sol/src/declarations/visitor.ts:459-464 | `emptyDeclarations()` is a left identity of the merge on well-formed collections |
| VisitorMerge.EmptyWellFormed | packages/abi-to-sol/src/declarations/visitor.ts:459-464 | The empty collection is well formed and closed |
| VisitorMerge.MergeAsWritten | packages/abi-to-sol/src/declarations/visitor.ts:412-457 | As written, a merge that does not throw keeps `a`'s signature declarations unchanged, dropping `b`'s; the container lists are merged as intended |
| VisitorMerge.MergeAsWrittenLosesCandidates | packages/abi-to-sol/src/declarations/visitor.ts:427-445 | As written, merging one named candidate into the empty collection loses it; the intended merge keeps it |
| VisitorMerge.MergeAsWrittenThrowsOnAnonymous | packages/abi-to-sol/src/declarations/visitor.ts:435-439 | As written, merging a collection holding one anonymous candidate with itself throws; the intended merge returns the collection unchanged |
| VisitorMerge.MergeSameSignatures | packages/abi-to-sol/src/declarations/visitor.ts:447-454 | A one-signature container list merged with itself stays as it is |
| VisitorCollect.ClassifyComponents | packages/abi-to-sol/src/declarations/visitor.ts:325-331 | Pointwise: each component keeps its name and gets its classified type |
| VisitorCollect.OwnDeclarations | packages/abi-to-sol/src/declarations/visitor.ts:333-351 | A struct's own contribution: exactly its signature, holding one candidate with its identifier and classified components, listed under its container key |
| VisitorCollect.VisitParameter | packages/abi-to-sol/src/declarations/visitor.ts:316-361 | Elementary gives the empty collection; a struct's candidate is recorded under its signature; the result is well formed and closed |
| VisitorCollect.CollectParameters | packages/abi-to-sol/src/declarations/visitor.ts:353-357 | The fold keeps the accumulator's records, records every struct-shaped parameter, and preserves well-formedness and closure |
| VisitorCollect.VisitEntry | packages/abi-to-sol/src/declarations/visitor.ts:268-314 | Fallback and receive entries collect nothing; the result is well formed and closed |
| VisitorCollect.VisitEntryRecordsTuples | packages/abi-to-sol/src/declarations/visitor.ts:268-314 | Every struct-shaped input or output of the entry is recorded under its signature with its identifier |
| VisitorCollect.Collect | packages/abi-to-sol/src/declarations/visitor.ts:148-154 | The collected candidates of any ABI node are well formed and closed; a struct parameter node records its own candidate |
| VisitorCollect.CollectEntries | packages/abi-to-sol/src/declarations/visitor.ts:259-266 | Folding the entries keeps every identifier already collected and preserves well-formedness and closure |
| VisitorCollect.CollectEntriesRecordsTuples | packages/abi-to-sol/src/declarations/visitor.ts:259-266 | After the fold, every struct input or output of every entry is recorded under its signature with its identifier |
| VisitorCollect.CollectAbiRecordsTuples | packages/abi-to-sol/src/declarations/visitor.ts:148-154 | Collecting a whole ABI records every struct input or output of every entry |
| VisitorCollect.CollectParametersConcat | packages/abi-to-sol/src/declarations/visitor.ts:353-357 | Folding over `xs + ys` is folding over `xs`, then over `ys` |
| VisitorCollect.FunctionEntryInputsThenOutputs | packages/abi-to-sol/src/declarations/visitor.ts:286-293 | A function's inputs are visited first, then its outputs; missing outputs count as none |
| VisitorCollect.CollectElementary | packages/abi-to-sol/src/declarations/visitor.ts:321-323 | Elementary parameters contribute nothing |
| VisitorCollect.EntryWithoutTuplesIsEmpty | packages/abi-to-sol/src/declarations/visitor.ts:268-314 | An entry without struct-shaped parameters, fallback and receive included, yields the empty collection |
| VisitorCollect.FlatTuple | packages/abi-to-sol/src/declarations/visitor.ts:316-361 | A struct with only elementary components yields exactly one signature with one candidate whose component names are the parameter's |
| VisitorCollect.OneNestedTuple | packages/abi-to-sol/src/declarations/visitor.ts:316-361 | A struct with one flat nested struct yields its own signature, then the nested one |
| VisitorCollect.MergeOwnDeclarations | packages/abi-to-sol/src/declarations/visitor.ts:412-457 | Merging two structs with different signatures appends the second's entry |
| VisitorCollect.VisitParameterAsWritten | packages/abi-to-sol/src/declarations/visitor.ts:316-361 | As written, the walk fails iff the parameter is a struct with at least one component; when it does not fail it agrees with the intended walk |
| VisitorCollect.VisitParameterAsWrittenThrows | packages/abi-to-sol/src/declarations/visitor.ts:353-356 | As written, any struct with a component throws; the intended walk records it in a well-formed, closed result |
| VisitorResolve.AnonymousCountConcat | packages/abi-to-sol/src/declarations/visitor.ts:476-495 | The number of anonymous candidates is additive over concatenation |
| VisitorResolve.NameCandidates | packages/abi-to-sol/src/declarations/visitor.ts:480-491 | One declaration per candidate; the counter advances exactly once per anonymous candidate |
| VisitorResolve.NameCandidatesAt | packages/abi-to-sol/src/declarations/visitor.ts:480-491 | A named candidate keeps its identifier and components; the anonymous one is named `S_k`, where k counts the anonymous candidates before it |
| VisitorResolve.NameCandidatesConcat | packages/abi-to-sol/src/declarations/visitor.ts:476-495 | Naming `xs + ys` is naming `xs`, then `ys` from the counter where `xs` left it |
| VisitorResolve.SynthesizedNamesDistinct | packages/abi-to-sol/src/declarations/visitor.ts:485-490 | Two anonymous candidates of one list receive different names |
| VisitorResolve.NameSignatures | packages/abi-to-sol/src/declarations/visitor.ts:466-495 | The naming pass keeps every signature key and list length; the counter ends at the total number of anonymous candidates |
| VisitorResolve.NameSignaturesFlatten | packages/abi-to-sol/src/declarations/visitor.ts:476-495 | Naming signature by signature is naming the flattened list with one counter |
| VisitorResolve.NameSignaturesAt | packages/abi-to-sol/src/declarations/visitor.ts:480-491 | Every position of every signature is named as the candidate there demands |
| VisitorResolve.AllSynthesizedNamesDistinct | packages/abi-to-sol/src/declarations/visitor.ts:469-495 | Any two anonymous candidates anywhere in the collection receive different names |
| VisitorResolve.PopulateComponent | packages/abi-to-sol/src/declarations/visitor.ts:544-575 | Complete components are kept; an anonymous struct takes the identifier of the first declaration under its signature and fails iff there is none; every success is complete and keeps the name |
| VisitorResolve.PopulateDeclaration | packages/abi-to-sol/src/declarations/visitor.ts:520-529 | Succeeds iff every component can be back-filled; keeps the identifier; components pointwise back-filled |
| VisitorResolve.PopulateSignatureDeclarations | packages/abi-to-sol/src/declarations/visitor.ts:505-535 | Succeeds iff every declaration can be back-filled; keeps keys and list lengths; pointwise back-filled |
| VisitorResolve.PopulateMissingIdentifiers | packages/abi-to-sol/src/declarations/visitor.ts:466-503 | On success, container lists are unchanged and every signature keeps its key and number of declarations |
| VisitorResolve.PopulateComponentAsWritten | packages/abi-to-sol/src/declarations/visitor.ts:544-575 | As written, back-filling fails iff the component is an anonymous struct; otherwise it agrees with the intended back-fill |
| VisitorResolve.CollectDeclarations | packages/abi-to-sol/src/declarations/visitor.ts:148-157 | No contract of its own (the proof needs the later completeness module): `VisitorCompleteness.CollectDeclarationsComplete` states that it never fails and yields a well-formed catalogue without dangling references |
| VisitorResolve.PopulateComponentAsWrittenThrows | packages/abi-to-sol/src/declarations/visitor.ts:555-563 | As written, an anonymous struct component throws even when its signature has a declaration; the intended back-fill takes that declaration's identifier |
| VisitorQueries.AllDeclarations | packages/abi-to-sol/src/declarations/visitor.ts:241-246 | A declaration is listed iff some signature holds it |
| VisitorQueries.IsEmpty | packages/abi-to-sol/src/declarations/visitor.ts:159-161 | True iff there is no signature key |
| VisitorQueries.StructContainerNames | packages/abi-to-sol/src/declarations/visitor.ts:163-165 | A name is listed iff it is a container key |
| VisitorQueries.FilterByContainer | packages/abi-to-sol/src/declarations/visitor.ts:173-175 | Keeps exactly the declarations whose own container is the wanted one |
| VisitorQueries.ScopedDeclarations | packages/abi-to-sol/src/declarations/visitor.ts:167-193 | Fails iff the container key or one of its signatures is missing; on success, exactly the declarations in the listed signatures whose own container matches |
| VisitorQueries.GlobalDeclarations | packages/abi-to-sol/src/declarations/visitor.ts:167-179 | Fails iff there is no global container list or it names a missing signature; every declaration returned is a known one without a container |
| VisitorQueries.ContainerDeclarations | packages/abi-to-sol/src/declarations/visitor.ts:181-193 | Fails iff the container has no list or it names a missing signature; every declaration returned is a known one in that container |
| VisitorQueries.ReadSignatures | packages/abi-to-sol/src/declarations/visitor.ts:169-177 | Reading the listed signatures fails iff one of them is missing; otherwise each result is that signature's declarations filtered by container, in order |
| VisitorQueries.ReadSignature | packages/abi-to-sol/src/declarations/visitor.ts:172-175 | Reading one signature fails iff it is missing, else gives its declarations in the requested container |
| VisitorQueries.FindByIdentifier | packages/abi-to-sol/src/declarations/visitor.ts:198-202 | None iff no declaration has the identifier; otherwise the first one that has it |
| VisitorQueries.IdentifierDeclaration | packages/abi-to-sol/src/declarations/visitor.ts:195-203 | None iff no declaration anywhere has the identifier; otherwise the first declaration with it, in signature order and then list order |
| VisitorQueries.TypeForParameter | packages/abi-to-sol/src/declarations/visitor.ts:205-239 | Elementary unless a tuple with components; then fails iff the signature has no declaration, else a struct named after the first one |
| VisitorCompleteness.BackFillSucceeds | packages/abi-to-sol/src/declarations/visitor.ts:505-578 | On a well-formed, closed collection after naming, no back-fill fails |
| VisitorCompleteness.BackFillAligned | packages/abi-to-sol/src/declarations/visitor.ts:466-535 | The back-filled catalogue lines up position by position with the candidates: identifiers and containers kept |
| VisitorCompleteness.CatalogueWellFormedOfCollected | packages/abi-to-sol/src/declarations/visitor.ts:466-503 | The post-pass succeeds on a well-formed, closed collection and yields a well-formed catalogue |
| VisitorCompleteness.PopulateResolvesEverywhere | packages/abi-to-sol/src/declarations/visitor.ts:537-578 | After the post-pass, every struct component of every declaration carries an identifier that `identifierDeclaration` finds |
| VisitorCompleteness.CollectDeclarationsComplete | packages/abi-to-sol/src/declarations/visitor.ts:148-157 | `collectDeclarations` never fails on any node; its catalogue is well formed and has no dangling struct reference |
| VisitorCompleteness.IsEmptyIffNoDeclarations | packages/abi-to-sol/src/declarations/visitor.ts:159-161 | On a well-formed catalogue, `isEmpty()` holds iff there is no declaration at all |
| VisitorCompleteness.StructContainerNamesIff | packages/abi-to-sol/src/declarations/visitor.ts:163-165 | A container name is listed iff some declaration lives in it (`""` for global) |
| VisitorCompleteness.ScopedDeclarationsExact | packages/abi-to-sol/src/declarations/visitor.ts:167-193 | On a well-formed catalogue, the global and container queries succeed iff the key is listed, and return exactly the declarations in that scope |
| VisitorCompleteness.ScopedDeclarationsSucceed | packages/abi-to-sol/src/declarations/visitor.ts:167-193 | A declaration in a scope makes that scope's query succeed and contain it |
| VisitorCompleteness.TypeForRecordedParameter | packages/abi-to-sol/src/declarations/visitor.ts:205-239 | A struct parameter recorded by the collector gets a struct type whose identifier `identifierDeclaration` finds |
| VisitorCompleteness.TypeForEntryParameter | packages/abi-to-sol/src/declarations/visitor.ts:205-239 | For any struct parameter of a collected entry, `typeForParameter` succeeds with a resolvable struct identifier |
| VisitorCompleteness.TypeForCollectedParameter | packages/abi-to-sol/src/declarations/visitor.ts:205-239 | For a tuple parameter node given to `collectDeclarations`, the parameter's type is a struct whose identifier `identifierDeclaration` finds |
| VisitorCompleteness.TypeForAbiParameter | packages/abi-to-sol/src/declarations/visitor.ts:205-239 | For a whole ABI given to `collectDeclarations`, every tuple input or output of every entry gets a struct type whose identifier `identifierDeclaration` finds |
| Legacy.GenerateIdentifier | packages/abi-to-sol/src/declarations.ts:146-174 | A hint of one or two parts names the tuple without advancing the counter; anything else takes `S_n` and advances it by exactly one |
| Legacy.GenerateIdentifierAgrees | packages/abi-to-sol/src/declarations.ts:146-170 | The counter is used iff the visitor's `generateType` finds no identifier; otherwise both give the same identifier |
| Legacy.SynthesizedIdentifiersDistinct | packages/abi-to-sol/src/declarations.ts:172-174 | Names drawn at different counter values differ |
| Legacy.LegacyComponentOf | packages/abi-to-sol/src/declarations.ts:115-124 | Name, type and internal type are kept; a signature is attached iff the component has components, and it is the tuple part of the component's type signature |
| Legacy.OwnDeclarations | packages/abi-to-sol/src/declarations.ts:110-134 | Exactly one signature holding the tuple's declaration, registered under its container; well formed |
| Legacy.EmptyDeclarations | packages/abi-to-sol/src/declarations.ts:204-209 | No contract of its own: no signatures and no containers; `MergeEmptyLeftLegacy` and `MergeEmptyRightLegacy` state that it is the merge's identity |
| Legacy.MergeDeclarations | packages/abi-to-sol/src/declarations.ts:177-202 | Key order of both maps after a merge: `a`'s keys, then `b`'s new ones |
| Legacy.MergeLastWriterWins | packages/abi-to-sol/src/declarations.ts:181-185 | A signature of `b` takes `b`'s declaration; any other keeps `a`'s |
| Legacy.MergeContainerUnion | packages/abi-to-sol/src/declarations.ts:192-199 | Container lists merge as an order-preserving set union |
| Legacy.MergeLegacyWellFormed | packages/abi-to-sol/src/declarations.ts:177-202 | A merge keeps keys unique, container lists distinct, each declaration's signature listed under its container, and every listed signature declared |
| Legacy.MergeEmptyRightLegacy | packages/abi-to-sol/src/declarations.ts:204-209 | The empty value is a right identity of the merge |
| Legacy.MergeEmptyLeftLegacy | packages/abi-to-sol/src/declarations.ts:204-209 | The empty value is a left identity of the merge on well-formed values |
| Legacy.VisitParameter | packages/abi-to-sol/src/declarations.ts:103-144 | Elementary gives nothing and leaves the counter; a tuple's signature is recorded; the counter advances once per anonymous tuple in the tree; well formed |
| Legacy.VisitParameters | packages/abi-to-sol/src/declarations.ts:136-140 | The fold keeps the accumulator's keys, advances the counter per anonymous tuple, and keeps well-formedness |
| Legacy.VisitParametersRecordsTuples | packages/abi-to-sol/src/declarations.ts:136-140 | Every tuple parameter of the fold has its signature recorded |
| Legacy.VisitEntry | packages/abi-to-sol/src/declarations.ts:55-101 | Fallback and receive give nothing; the counter advances once per anonymous tuple; well formed |
| Legacy.VisitEntryRecordsTuples | packages/abi-to-sol/src/declarations.ts:55-101 | Every tuple input or output of the entry is recorded under its signature |
| Legacy.VisitEntries | packages/abi-to-sol/src/declarations.ts:46-53 | The fold over the entries keeps the accumulator's signatures and well-formedness, and advances the counter by exactly the number of anonymous tuples in all entries |
| Legacy.VisitEntriesRecordsTuples | packages/abi-to-sol/src/declarations.ts:46-53 | After the fold, every tuple input or output of every entry is recorded by its signature |
| Legacy.CollectLegacyAbiRecordsTuples | packages/abi-to-sol/src/declarations.ts:32-36 | Collecting a whole ABI with the legacy collector records every tuple input or output of every entry |
| Legacy.CollectLegacy | packages/abi-to-sol/src/declarations.ts:32-36 | The collected declarations of any node are well formed; a tuple parameter node records its signature |
| Legacy.VisitParametersKeysBounded | packages/abi-to-sol/src/declarations.ts:103-144 | Every signature a walk records is at most as long as some visited tuple's signature |
| Legacy.OwnDeclarationSurvives | packages/abi-to-sol/src/declarations.ts:127-143 | A tuple's own declaration survives the merge with its children's results |
| Legacy.SiblingNamesDistinct | packages/abi-to-sol/src/declarations.ts:146-174 | Two anonymous sibling tuples visited in order get different declarations |
| Legacy.MergeLegacyClosed | packages/abi-to-sol/src/declarations.ts:177-202 | Merging two values whose component signatures are all declared gives one with the same property |
| Legacy.CollectLegacyEntryClosed | packages/abi-to-sol/src/declarations.ts:55-144 | For ABI JSON in which only tuples carry components, every nested component signature of an entry is declared |
| Legacy.VisitParametersConcat | packages/abi-to-sol/src/declarations.ts:73-80 | Visiting `xs + ys` is visiting `xs`, then `ys` from where the counter stopped |
| Legacy.LegacyFunctionInputsThenOutputs | packages/abi-to-sol/src/declarations.ts:73-80 | A function's inputs are visited first, then its outputs, with one counter |
| Legacy.VisitElementary | packages/abi-to-sol/src/declarations.ts:106-108 | Elementary parameters change neither the declarations nor the counter |
| Legacy.FlatAnonymousTuple | packages/abi-to-sol/src/declarations.ts:103-174 | A flat anonymous tuple is named `S_n` and advances the counter by one |
| Legacy.SameShapeTwice | packages/abi-to-sol/src/declarations.ts:177-202 | Two anonymous tuples of the same shape consume two names, but only the second declaration (`S_{n+1}`) survives |
| PrintAbi.Tokens | packages/abi-to-sol/src/printAbi.ts:30-71 | No contract of its own: the intended token stream; `TokensCompact` relates it to the independent compact rendering |
| PrintAbi.TokensAsWritten | packages/abi-to-sol/src/printAbi.ts:30-71 | No contract of its own: the token stream as written, every object at every depth repeating its first entry; `AsWrittenLonger` and `AsWrittenAgreesIff` relate it to `Tokens` |
| PrintAbi.TokensCompact | packages/abi-to-sol/src/printAbi.ts:30-52 | The token stream, run together, is exactly the compact JSON text of the value |
| PrintAbi.AsWrittenLonger | packages/abi-to-sol/src/printAbi.ts:30-71 | As written, the token stream is never shorter than the intended one, is longer whenever the value holds a non-empty object at any depth, and is the same stream otherwise |
| PrintAbi.AsWrittenAgreesIff | packages/abi-to-sol/src/printAbi.ts:54-71 | The as-written and intended token streams agree exactly on values without a non-empty object |
| PrintAbi.NestedObjectDiffers | packages/abi-to-sol/src/printAbi.ts:40-71 | A non-empty object inside an array is printed differently as written |
| PrintAbi.PrintAsWrittenAgrees | packages/abi-to-sol/src/printAbi.ts:8-15 | Without a non-empty object, `printAbi` as written prints the same text as the intended printer at every break length |
| PrintAbi.ObjectAsWrittenRepeatsFirst | packages/abi-to-sol/src/printAbi.ts:54-71 | As written, an object whose values hold no non-empty object has the intended tokens with the first key-value group and a `,` inserted after `{` |
| PrintAbi.ObjectAsWrittenCompact | packages/abi-to-sol/src/printAbi.ts:54-71 | Such an object, run together as written, is `{`, the first member, `,`, every member, `}` |
| PrintAbi.SingleEntryAsWritten | packages/abi-to-sol/src/printAbi.ts:54-71 | A one-entry object prints its member twice as written, its value itself printed as written |
| PrintAbi.ObjectAsWrittenExample | packages/abi-to-sol/src/printAbi.ts:63-68 | `{"a": 1}` prints as `{"a":1,"a":1}` as written and as `{"a":1}` when intended |
| PrintAbi.NestedAsWrittenExample | packages/abi-to-sol/src/printAbi.ts:40-71 | `[{k: x}]` prints as `[{k:x,k:x}]` as written and as `[{k:x}]` when intended |
| PrintAbi.DeepAsWrittenExample | packages/abi-to-sol/src/printAbi.ts:54-71 | `{k: {l: x}}` prints as `{k:{l:x,l:x},k:{l:x,l:x}}` as written: the repetition compounds with depth |
| PrintAbi.Add | packages/abi-to-sol/src/printAbi.ts:87-95 | A line is pushed iff buffer plus token exceeds the break length; a push appends exactly the old buffer as a line and restarts the buffer with the whole token, otherwise the token is appended to the buffer; the buffer fits unless it is the token alone |
| PrintAbi.AddAll | packages/abi-to-sol/src/printAbi.ts:87-95 | Adding tokens one by one only appends lines, and the text so far grows by exactly the tokens run together |
| PrintAbi.LayoutKeepsText | packages/abi-to-sol/src/printAbi.ts:8-28 | Layout loses, reorders and splits nothing: lines plus buffer are the compact JSON text, and the lines and buffer are runs of whole tokens that in order make up the token stream |
| PrintAbi.AddWholeTokens | packages/abi-to-sol/src/printAbi.ts:87-95 | One `add` either closes the buffer's run of whole tokens as a line and starts a new run with the token, or extends the run |
| PrintAbi.AddAllWholeTokens | packages/abi-to-sol/src/printAbi.ts:87-95 | Adding tokens keeps the layout a cut of the tokens between whole tokens, and returns that cut |
| PrintAbi.LayoutSplitsNothing | packages/abi-to-sol/src/printAbi.ts:87-95 | From an empty layout, every line and the buffer are runs of whole tokens, in order, that make up the input |
| PrintAbi.PrintedLinesFit | packages/abi-to-sol/src/printAbi.ts:87-95 | Every printed line fits in the break length unless it is a single token longer than the break length |
| PrintAbi.OversizedFirstToken | packages/abi-to-sol/src/printAbi.ts:87-95 | A first token longer than the break length pushes an empty first line |
| PrintAbi.PrintedLineBreaks | packages/abi-to-sol/src/printAbi.ts:97-99 | With newline-free tokens, the output has exactly one line break per pushed line |
| PrintAbi.Read | packages/abi-to-sol/src/printAbi.ts:97-99 | No contract of its own: the lines, then the buffer, joined by newlines; `PrintedLineBreaks` counts its line breaks |
| PrintAbi.Print | packages/abi-to-sol/src/printAbi.ts:8-15 | No contract of its own: the intended printer; `LayoutKeepsText`, `PrintedLinesFit` and `PrintedLineBreaks` state its properties |
| PrintAbi.PrintDefault | packages/abi-to-sol/src/printAbi.ts:8-15 | No contract of its own: `Print` with the default break length 79 |
| PrintAbi.PrintAsWritten | packages/abi-to-sol/src/printAbi.ts:8-15 | No contract of its own: the printer as written; `PrintAsWrittenAgrees` relates it to `Print` |

## Left out

- I/O: `console.debug` in declarations.ts, and the `dispatch` plumbing of the visitor framework. Each node kind is a case of a Dafny function instead.
- `Codec.AbiData.Utils.abiTupleSignature` is not part of this model. `TupleSignature.Signature` is the canonical `(t1,...,tn)` form it is understood to compute. Its injectivity on shapes is not proved.
- `JSON.stringify` is not modelled. A scalar carries its JSON text, and object keys go through a `stringify` parameter.
- `null` values and JavaScript's integer-like-key ordering of object entries are not modelled. An object is a list of entries in printing order.
- `breakLength` is a `nat`; a negative or fractional JavaScript number is not modelled.
- `printAbi` as written (`PrintAbi.PrintAsWritten`, with `PrintAbi.TokensAsWritten` at every depth) is related to the intended printer at the token level. Its line layout has no lemmas of its own beyond those of `PrintAbi.AddAll`.
- A missing `components` list is treated as the empty list (`Parameter.ComponentsOrEmpty`). The source does this with `|| []` only in the collectors (declarations/visitor.ts:325 and :334, declarations.ts:111); elsewhere the missing list stays `undefined`, see the next three lines.
- Classifier.ToType: a tuple without `components` gets the empty component list, where the source keeps `undefined` in `parameterType.components` (parameters.ts:57-58). The model has no "absent" case for a struct's components.
- Classifier.Classify: the struct type carries the parameter's components (empty when missing). This follows the declared struct parameter type (declarations/visitor.ts:106-111); `generateType` itself returns no components, and `toType` keeps a missing list `undefined`.
- Classifier.GenerateType: attaches the components, following the declared struct parameter type (declarations/visitor.ts:106-111), although `generateType` (declarations/visitor.ts:378-404) returns the raw type string as `parameterType` and no components. The model's later signature lookups use these components where the source's code reads `undefined`.
- Structs.ToCompleteType: for a tuple without `components`, the source passes `undefined` to `abiTupleSignature` (structs.ts:37-39); the model looks up the signature of the empty list, `()`. What `abiTupleSignature(undefined)` returns is not part of this model.
- PrintAbi.Add: the line length is `|attempt|`, a count of characters. JavaScript's `attempt.length` counts UTF-16 code units, so a token with characters outside the Basic Multilingual Plane is shorter in the model.
- JavaScript `Set`s (`structContainerNames`, `globalDeclarations`, `containerDeclarations`) are sequences without duplicates, in insertion order.
- `nextAssignedName` in declarations/visitor.ts is never called. It is not modelled.
- `VisitorCollect.VisitParameter`: follows the evident intent and recurses into the raw components. As written, the recursion throws (see "## Findings").
- `VisitorMerge.Merge`: follows the evident intent and stores the merged candidate list. As written, the list is dropped (see "## Findings"). It also compares identifiers as optional values, so an anonymous candidate is found or pushed like any other. As written, the `find` callback destructures `identifier` and throws as soon as an anonymous candidate is on either side of a non-empty list (see "## Findings").
- `VisitorResolve.PopulateComponent`: computes the signature from the struct type's own components. As written, it reads an unbound name (see "## Findings").
- `VisitorResolve.PopulateMissingIdentifiers`: its own contract covers only keys, lengths and containers. Naming and completeness are stated by `VisitorResolve.NameSignaturesAt` and `VisitorCompleteness.CollectDeclarationsComplete`.
- `Legacy.CollectLegacyEntryClosed`: assumes ABI JSON in which only tuple types carry `components`, as the compiler writes it.
- The web front end, the Solidity generator and the test suites are outside the modelled core.

## Findings

| source | as written | input that shows it | evidently intended | confidence | as-written member | corrected member |
|---|---|---|---|---|---|---|
| packages/abi-to-sol/src/declarations/visitor.ts:430-445 | the merged candidate list is built and never stored, so `b`'s candidates are lost | merging `{"()": [S]}` into the empty collection gives no signature declarations | store the merged list under the signature | high, not executed | VisitorMerge.MergeAsWrittenLosesCandidates | VisitorMerge.MergeKeepsEverything |
| packages/abi-to-sol/src/declarations/visitor.ts:435-439 | the `find` callback destructures `{ identifier: { container, name } }`, which throws a TypeError when a listed or incoming candidate has no identifier | merging `{"()": [anonymous S]}` with itself | compare the optional identifiers, anonymous equal to anonymous | high, not executed | VisitorMerge.MergeAsWrittenThrowsOnAnonymous | VisitorMerge.AppendNewCandidatesDistinct |
| packages/abi-to-sol/src/declarations/visitor.ts:353-356 | the recursion visits the classified `{name, type}` objects, and `type.startsWith` is then called on an object | any tuple parameter with at least one component | recurse into `parameter.components` | high, not executed | VisitorCollect.VisitParameterAsWrittenThrows | VisitorCollect.VisitParameter |
| packages/abi-to-sol/src/declarations/visitor.ts:557 | the signature is computed from `components`, which is not bound in `populateComponents` | any struct component without an identifier hint | use `parameterType.components` | high, not executed | VisitorResolve.PopulateComponentAsWrittenThrows | VisitorCompleteness.PopulateResolvesEverywhere |
| packages/abi-to-sol/src/printAbi.ts:63 | the loop over the remaining entries runs over all of `Object.entries(object)`, so the first entry is printed twice | `{"a": 1}` prints as `{"a":1,"a":1}` | loop over `rest` | high, not executed | PrintAbi.ObjectAsWrittenExample | PrintAbi.TokensCompact |
