# The device-tree libraries, modelled and proved in Dafny

The project models the device-tree engine of the repository: the flattened-tree library `libs/libfdt`, the
overlay engine on unflattened trees `libs/libufdt`, the look-up tables of `libs/DTBExtnLib` and the selection of
trees in `libs/DTSelectLib`. It proves what these promise of each other: that every edit of a blob decodes to
the edited tree, that a blob that is written decodes to what was written, that references survive the
application of an overlay, and that the two overlay engines give the same tree.

One tree, `Forest` (`Tree.dfy`), is the common abstraction: nodes, properties and NOP tags in the order of the
structure block of the Devicetree Specification v0.4 (sections 5.4.1 and 5.4.2). Around it:

- the format and its readers: `Bytes`, `Tree`, `Encoding`, `Positions`, `Tags`, `FdtRead`, `Walk`, `Family`,
  `Paths`, `Aliases`, `Check`. A reader takes a blob's blocks as values; `Encodes(v, f)` says that they are those of tree f,
  and a position `Pos` is an offset together with what is around it;
- edits in place: class `Blob` (`Blob.dfy`), `Edits`, `FdtRw`, `FdtWip`, `Merge`, `OverlayMerge`;
- the sequential writer: class `Writer` (`FdtSw.dfy`), `SwFormat`, `Programs`;
- libfdt's overlays: `Overlay` (the passes, as functions of trees), `FixupText` and `FixupForm` (the text of the
  fixups), `Sem` (a tree up to the order of siblings), `OverlaySteps`, `Skeleton`, `Refs`, `Conflicts`, `Lookups`,
  `Writers` (one merge, followed as it runs), `Merged` (all fragments), `OverlayProof` (what holds of every run, and
  exactly when the promises are kept), `BaseRefs` (the references into the base), `Steady` and `Targets` (what can be
  checked of a base and an overlay, as they are passed in, so that they are kept), `OverlayAccept` and `ApplyAccept`
  (exactly when an overlay is applied), `Symbols` and `SymbolsKept`, and worked examples in `Examples`, `LostPhandle`,
  `Witness`, `Reference` and `ShortAlias`;
- libufdt: `Ufdt` (its functions on values), `UfdtSteps`, `UfdtAgree` (the two engines), `UfdtAccept` (exactly when an
  overlay is applied, and the references into the base), `NodePool`, `UfdtHeap`, `UfdtLife` (nodes in a pool),
  `UfdtNames`, `UfdtBuild`, `UfdtOut`, `UfdtSizes`, `UfdtApply` (from blobs to a blob), `PhandleTable`, `PropDict`,
  `Qsort`;
- `Accepted`: what the writer finishes and what is edited passes fdt_check_full;
- `Index` (DTBExtnLib), `Select` (DTSelectLib) and its example `Misaligned`.

Three things that the code promises turn out to be false. Each is stated with an input and with the exact condition:

- Phandles of the base are kept, and no two nodes of the result share one. This holds if and only if every overlay
  node that gives a node its phandle has been matched, when conflicts were looked for, with that node, or with none
  that has a phandle if that node had none (`OverlayProof.PhandlesSafe`, `OverlayProof.BaseKeptIff`). It fails when a
  name without its unit address comes to stand for another node while an overlay is merged (`Examples.AddressClash`),
  and when a target is a phandle that an earlier fragment gives to a node of the base
  (`LostPhandle.PhandleOverwritten`).
- A label of the overlay leads, afterwards, to the node it stood for. With the guard below it does if and only if the
  fragment's `target-path` is not an alias of one character, or that alias is the root (`Symbols.SymbolsResolve`; the
  input is in `ShortAlias.LabelLeads`).
- The selection finds its way through an image of valid blobs. It does if and only if every header that is looked at
  is at a multiple of 8, besides every entry having its node `/board-id/` (`Select.WalksIff`; the inputs are in
  `Misaligned`).

References inside the overlay follow their nodes if and only if the node that is meant, or the base node that it was
matched with, gives the merged node its phandle (`OverlayProof.ReferencesFollow`).

References into the base hold the phandle of the node that the base's symbol leads to, in the result too unless a later
node sets the property, and refer to that node there if and only if its phandle is kept (`BaseRefs.LabelsFollow`).

Both engines apply an overlay exactly if the phandles fit, the fixups lead to cells of the overlay, the labels to nodes of
the base, and each fragment has a target that there is by then (`ApplyAccept.ApplyOk`, `UfdtAccept.OverlayOk`).

A guard that makes sure of the phandles (`Targets.Guarded`) reads the base and the overlay as they are passed in: each
fragment has its target by a phandle of the base, its own or through symbols of the base, or by an absolute path or an
alias that no fragment sets; and of the names that are looked up below one node of the base none stands for another that
the overlay adds there. `Targets.GuardedSafe`, `Targets.GuardedGoes` and `Targets.GuardedFollows` are the theorems.

`dafny verify dfyconfig.toml` checks all of it, without further options.

## Model

| member | source | states |
|---|---|---|
| Tags.TagAtOffset | libs/libfdt/fdt.c:162-221 | at every position of an encoded tree the byte reader finds that position's tag and the offset of the next one |
| FdtRead.NextNode | libs/libfdt/fdt.c:247-285 | the step to the next node stops at the next begin tag, leaves the node, or ends, with the depth it should have |
| FdtRead.FirstSubnode | libs/libfdt/fdt.c:287-296 | the first child of a node, or that there is none |
| FdtRead.NextSubnode | libs/libfdt/fdt.c:298-313 | the next sibling, past everything inside the node |
| FdtRead.SubnodeOffset | libs/libfdt/fdt_ro.c:225-248 | the first child whose name the wanted one stands for, with or without its unit address |
| FdtRead.GetPropertyOffset | libs/libfdt/fdt_ro.c:397-425 | the property of that name among the node's own, found by comparing strings of the strings block |
| Family.ForEachSubnode | libs/libfdt/fdt.c:287-313 | the walk over the children meets each child once, in order |
| Family.SupernodeAtDepth | libs/libfdt/fdt_ro.c:623-659 | the ancestor at that depth, or the error for a bad depth or offset |
| Family.ParentOffset | libs/libfdt/fdt_ro.c:673-681 | the node around, and NOTFOUND for the root |
| Family.ChildrenReturn | libs/libfdt/fdt_ro.c:673-681 | every child that is met has the node as its parent, with the name and content the tree has there |
| Check.CheckFull | libs/libfdt/fdt_check.c:13-96 | accepts a buffer if and only if it is at a multiple of 8, its blocks lie inside it, the reserve map ends and the tags encode a tree of the accepted shape |
| Check.AcceptedRoot | libs/libfdt/fdt_check.c:38-95 | an accepted blob whose first tag begins a node encodes exactly one tree, with one root with an empty name |
| Check.HeaderIff | libs/libfdt/fdt.c:89-138 | the header is accepted if and only if magic, versions and total size are right and the three blocks lie behind it and inside the blob, no sum wrapping; and which error it is otherwise |
| Accepted.FinishedGood | libs/libfdt/fdt_sw.c:337-384 | a blob that the writer has finished, its header stored, is one that fdt_check_full accepts, if the tree written is of the accepted shape |
| Accepted.EditedGood | libs/libfdt/fdt_rw.c:206-401 | so is a blob after any of the edits |
| Paths.GetPath | libs/libfdt/fdt_ro.c:571-621 | writes the names on the way joined by slashes, and reports no space exactly when they do not fit |
| Paths.PathOffset | libs/libfdt/fdt_ro.c:250-301 | the node the path names, absolute or by an alias, or the error |
| Aliases.AliasExpands | libs/libfdt/fdt_ro.c:250-301 | a path that begins with an alias leads where the value of the alias leads with the rest of the path behind it |
| Aliases.AliasLeads | libs/libfdt/fdt_ro.c:250-301 | an alias of a node above another, with the names from there behind it, leads to that other node |
| Aliases.LookupIsPathTo | libs/libfdt/fdt_ro.c:250-301 | the look-up in the blob and the look-up in the content, which the overlay theorems speak of, have the same answer or error on every path |
| Paths.PathInverts | libs/libfdt/fdt_ro.c:250-301 | the path written for a node leads back to it if and only if no name on the way also stands for an earlier sibling |
| Blobs.Blob.Splice | libs/libfdt/fdt_rw.c:54-68 | bytes before the splice stay, those behind it move as they are, and it fails exactly when the data would not fit |
| FdtRw.FindAddString | libs/libfdt/fdt_rw.c:127-155 | an occurrence of the string if there is one, else it is added at the end; on failure nothing changes |
| FdtRw.SetPropAt | libs/libfdt/fdt_rw.c:206-295 | the blob decodes to the tree with the property set, the reserve map kept; NOSPACE exactly when the bytes needed do not fit, and then nothing has changed, not even the strings |
| FdtRw.AppendProp | libs/libfdt/fdt_rw.c:297-323 | the value is the old one followed by the new; any failure leaves the tree |
| FdtRw.DelProp | libs/libfdt/fdt_rw.c:325-338 | the tree without the property, or the error and no change |
| FdtRw.SetName | libs/libfdt/fdt_rw.c:239-260 | the tree with the node renamed, or the exact error and no change |
| FdtRw.AddSubnode | libs/libfdt/fdt_rw.c:340-387 | a new node before the other children, at the offset returned; EXISTS, NOSPACE and BADOFFSET exactly when due |
| FdtRw.DelNode | libs/libfdt/fdt_rw.c:389-401 | the tree without the node and all below it |
| FdtWip.NopProperty | libs/libfdt/fdt_wip.c:59-71 | readers see the tree that deleting the property leaves, and no byte outside the property has changed |
| FdtWip.NopNode | libs/libfdt/fdt_wip.c:83-94 | readers see the tree that deleting the node leaves, and no byte outside the node has changed |
| FdtWip.SetPropInplacePartial | libs/libfdt/fdt_wip.c:13-31 | the value with the part overwritten; NOSPACE exactly when the part reaches past it, but where the sum wraps at 32 bits and comes out small enough the source writes outside the value |
| OverlayMerge.ApplyNode | libs/libfdt/fdt_overlay.c:767-812 | merging on the bytes, with the target's offset held over every splice, gives the recursive merge of the two trees; it fails only for want of space |
| FdtSw.Writer.Create | libs/libfdt/fdt_sw.c:109-146 | an empty half-built blob, or NOSPACE |
| FdtSw.Writer.AddReservemapEntry | libs/libfdt/fdt_sw.c:188-206 | one more reserve entry, or the error and no change |
| FdtSw.Writer.FinishReservemap | libs/libfdt/fdt_sw.c:208-217 | the reserve map closed by the zero entry |
| FdtSw.Writer.BeginNode | libs/libfdt/fdt_sw.c:219-234 | one more begin tag, or NOSPACE exactly when it would meet the strings |
| FdtSw.Writer.EndNode | libs/libfdt/fdt_sw.c:236-248 | one more end tag, likewise |
| FdtSw.Writer.Property | libs/libfdt/fdt_sw.c:293-335 | one more property, its name shared or added; NOSPACE exactly when tag and string do not both fit, and then the string is taken back |
| FdtSw.Writer.Resize | libs/libfdt/fdt_sw.c:148-186 | all that was written survives the move, for every overlap of the two buffers |
| FdtSw.Writer.Finish | libs/libfdt/fdt_sw.c:337-384 | the strings follow the structure block, every negative name offset has become the right positive one, and the block is the tags written |
| FdtSw.StringFitsExactly | libs/libfdt/fdt_sw.c:250-265 | the unsigned comparison is the room that is left exactly if table and name are not longer than the buffer |
| Programs.RunBalanced | libs/libfdt/fdt_sw.c:109-384 | every balanced run of calls that succeeds, with or without sharing names and with resizes between, gives a blob that decodes to the tree that the calls spell and to the reserve entries added, and whose entries are counted right if none is empty |
| Programs.CountsAdded | libs/libfdt/fdt_ro.c:160-199 | the entries counted are those added in front of the first empty one: all of them, and no other, if none is empty |
| Conflicts.MaxAttained | libs/libfdt/fdt_ro.c:114-140 | the offset of the shift is the phandle of some node of the base; with `Conflicts.MaxBound`, the greatest |
| Overlay.FixEntriesEach | libs/libfdt/fdt_overlay.c:373-452 | a fixup property that is processed without error has been read whole, and its entries stored in order (what the stores leave in each cell is `BaseRefs.SettledCell`) |
| FixupForm.FdtEntryIff | libs/libfdt/fdt_overlay.c:399-443 | libfdt reads exactly the texts path:property:number, the property named and the number a decimal one for strtoul, as that entry |
| FixupForm.UfdtEntryIff | libs/libufdt/ufdt_overlay.c:130-172 | libufdt reads exactly those, with a property that may be called nothing, a number that may be missing, and none that is negative as an int |
| FixupForm.WrittenRead | libs/libfdt/fdt_overlay.c:373-452 | entries written out, with decimal offsets and a NUL behind each, are read back as they were |
| OverlaySteps.ShiftAt | libs/libfdt/fdt_overlay.c:101-180 | the shift changes the phandle properties of every node by the offset and no other value |
| OverlaySteps.RewriteAt | libs/libfdt/fdt_overlay.c:201-306 | the local fixups change exactly the cells that they list, whichever nodes their names lead to |
| Refs.ShiftedRefsHold | libs/libfdt/fdt_overlay.c:137-306 | after shift and local fixups every local reference holds the new phandle of the node it meant |
| Refs.FixupsHold | libs/libfdt/fdt_overlay.c:330-497 | resolving the references into the base leaves phandles and local references as they are |
| BaseRefs.SymbolIsNode | libs/libfdt/fdt_overlay.c:381-408 | a label has a phandle exactly if it is a symbol of the base whose path leads to a node with one, and it is that one |
| BaseRefs.SettledCell | libs/libfdt/fdt_overlay.c:330-497 | a cell, at any depth, that `__fixups__` lists under one label only holds the phandle of the base node that the label leads to |
| BaseRefs.LabelsFollow | libs/libfdt/fdt_overlay.c:330-859 | it holds it still when the overlay is merged, and in the result, where its property has gone, unless a later node sets that; and it refers to that node there exactly if the base's phandle is kept |
| Conflicts.PreventHolds | libs/libfdt/fdt_overlay.c:509-746 | each overlay node with a phandle that is matched with a base node with one takes the base's, all local references follow, and nothing else changes |
| Writers.ApplyWrites | libs/libfdt/fdt_overlay.c:767-812 | the merge has at each path the value of the last overlay node that the look-ups, in the base as it has grown by then, lead there, or else the base's, and no node besides |
| Writers.WriterIs | libs/libfdt/fdt_overlay.c:767-812 | the node that wrote a value is one that goes where the value is and sets it |
| Lookups.PhandlePathFinds | libs/libfdt/fdt_ro.c:710-733 | a search for a phandle finds a node that has it, and none only if no node has it |
| ApplyAccept.MergesIff | libs/libfdt/fdt_overlay.c:43-85 | a fragment is merged exactly if there is a node it is for: the first with the phandle that target holds, or, if that is 0 or missing, the one of target-path; and into that |
| Merged.MergeAllWrites | libs/libfdt/fdt_overlay.c:829-859 | over all fragments the last node that sets a value wins, each fragment put where its target is in the base as it has grown by then |
| OverlayProof.ReferencesFollow | libs/libfdt/fdt_overlay.c:101-859 | a cell that referred to an overlay node holds, in the result, the phandle of the node it was merged into, exactly if that node or its match gives that phandle, unless a later node sets the property |
| OverlayProof.BaseKeptIff | libs/libfdt/fdt_overlay.c:654-746 | all phandles of the base are kept if and only if no overlay node gives a base node a phandle without having been matched with it |
| OverlayProof.PhandlesSafe | libs/libfdt/fdt_overlay.c:654-859 | they are kept and no two nodes of the result share a phandle if and only if every node that gives a phandle has been matched with the node it is merged into, or with none that has one |
| OverlayProof.BasePhandlesFound | libs/libfdt/fdt_ro.c:710-733 | then a search for a phandle of the base finds in the result the node that it found in the base |
| OverlayProof.NodeMerged | libs/libfdt/fdt_overlay.c:767-859 | every node of a fragment is in the result, at the path that target and look-ups give |
| Targets.GuardedSafe | libs/libfdt/fdt_overlay.c:43-859 | a guard on base and overlay as they are passed in, under which phandles are kept and stay apart |
| Targets.GuardedGoes | libs/libfdt/fdt_overlay.c:43-859 | under the guard every overlay node goes where its target and its names lead in the base, and has been matched with what is there |
| Targets.GuardedFollows | libs/libfdt/fdt_overlay.c:509-746 | under the guard references to a node follow if and only if the base has a phandle there or no later node gives one |
| Steady.ApplyStable | libs/libfdt/fdt_overlay.c:767-812 | merging keeps what names stand for, if none that is added stands for another that is looked up at the same node |
| OverlayAccept.ShiftOk | libs/libfdt/fdt_overlay.c:101-180 | the shift succeeds exactly if each phandle property of the overlay is one cell and stays in range |
| OverlayAccept.RewriteOk | libs/libfdt/fdt_overlay.c:201-306 | the local fixups are followed exactly if each of their nodes leads to one of the overlay and each list names cells inside the property |
| OverlayAccept.LabelsOk | libs/libfdt/fdt_overlay.c:373-497 | the references into the base are resolved exactly if each label leads to a node with a phandle, its value can be read, and each entry leads to a cell |
| ApplyAccept.PreventOk | libs/libfdt/fdt_overlay.c:509-746 | conflicts are resolved exactly if the targets of the fragments can be read, found or not |
| ApplyAccept.ApplyOk | libs/libfdt/fdt_overlay.c:1040-1100 | the overlay is applied, up to the update of the symbols, exactly if all that holds of the two trees and each fragment is for a node that there is when its turn comes |
| ApplyAccept.TargetFails | libs/libfdt/fdt_overlay.c:43-85 | which error a target gives that is not one cell, not found, missing, or no path |
| ApplyAccept.SymbolFails | libs/libfdt/fdt_overlay.c:393-408 | which error a label gives: no symbols, a symbol that is no path, or no such symbol, node or phandle |
| ApplyAccept.EntryFails | libs/libfdt/fdt_overlay.c:330-352 | which error an entry gives: no such node, no such property, or a cell outside its value |
| Examples.AddressClash | libs/libfdt/fdt_overlay.c:654-746 | a base and an overlay, sound and applied without error, with an omitted unit address, for which two nodes of the result share a phandle |
| LostPhandle.PhandleOverwritten | libs/libfdt/fdt_overlay.c:713-746 | a base and an overlay, sound and applied without error, for which a phandle of the base is overwritten |
| Witness.AllHypothesesMeet | libs/libfdt/fdt_overlay.c:1040-1100 | a base and an overlay with a fragment, a phandle, a local reference and a symbol that meet the hypotheses for both engines at once |
| Reference.ReferenceStored | libs/libfdt/fdt_overlay.c:330-497 | a base with a symbol and an overlay with one reference to it, below a fragment, on which those hypotheses hold: the cell holds the phandle 5 of the symbol's node, before the merge and in the result |
| Symbols.PartsAre | libs/libfdt/fdt_overlay.c:950-976 | cutting a symbol's path at its slashes gives the names of the path: fragment, `__overlay__`, and the rest |
| Symbols.SymbolsResolve | libs/libfdt/fdt_overlay.c:905-1038 | a label of the overlay is, afterwards, a symbol of the base; its path, absolute or below an alias, leads to the node that its overlay node was merged into, if and only if the target-path is not one character other than a slash, or the target is the root |
| Symbols.UpdateHolds | libs/libfdt/fdt_overlay.c:905-1038 | the update changes no other value, no phandle and no node; each symbol has the value made from the merged base, however many have been written before (which value that is, say Symbols.SymbolsResolve and SymbolsKept.OutsideKept) |
| SymbolsKept.PlaceIs | libs/libfdt/fdt_overlay.c:944-976 | a label is in a fragment exactly if its text is a slash, the fragment's name, `/__overlay__`, and nothing or a path from there |
| SymbolsKept.OutsideKept | libs/libfdt/fdt_overlay.c:944-976 | a label that lies in no fragment's `__overlay__`, or is none of the overlay, leaves the base's symbol of that name as it was |
| SymbolsKept.UpdateAccepted | libs/libfdt/fdt_overlay.c:905-1038 | under the guard the whole call succeeds exactly if each label of the overlay is an absolute path that ends at its NUL, and, if in a fragment's place, names a fragment |
| Symbols.UpdatedApart | libs/libfdt/fdt_overlay.c:1040-1100 | when all of fdt_overlay_apply is done the phandles of the base are kept and no two nodes share one |
| ShortAlias.LabelLeads | libs/libfdt/fdt_overlay.c:997-1034 | an overlay whose f stands for the base's f@1 and takes its phandle: the label of f leads to f@1 with the target-path written out, and does not with an alias of one character for it |
| FixupText.EntriesAgree | libs/libufdt/ufdt_overlay.c:130-203 | what libfdt reads as a fixup entry libufdt reads alike, unless the offset is negative as an int |
| FixupText.SameEntries | libs/libfdt/fdt_overlay.c:373-452 | a fixup property that libfdt can read has the same entries for libufdt |
| UfdtAccept.UShiftAt | libs/libufdt/ufdt_overlay.c:59-108 | the shift adds to the phandles of the nodes that have one, wrapping at 32 bits, and changes nothing else, whatever their length |
| UfdtSteps.ShiftIs | libs/libufdt/ufdt_overlay.c:59-108 | libufdt's shift of the unflattened tree is libfdt's shift of the flat one |
| UfdtSteps.LocalIs | libs/libufdt/ufdt_overlay.c:452-547 | likewise the local fixups |
| UfdtSteps.FixLabelsIs | libs/libufdt/ufdt_overlay.c:212-306 | likewise the references into the base, where libfdt resolves them |
| UfdtAccept.LocalOk | libs/libufdt/ufdt_overlay.c:452-547 | the local fixups are applied exactly if each leads to a node, each list to a property, and its cells lie inside |
| UfdtAccept.FixLabelsOk | libs/libufdt/ufdt_overlay.c:212-306 | the references are resolved exactly if each label is a symbol of the base whose path leads to a node, and each entry names a cell inside a property |
| UfdtAccept.LabelledCell | libs/libufdt/ufdt_overlay.c:130-306 | a cell that one label only lists holds the phandle of the base node that the label leads to |
| UfdtAccept.LookupSeen | libs/libufdt/ufdt_convert.c:178-231 | a path, absolute or behind an alias, leads to the node of those names exactly if there is one |
| UfdtAccept.MergeOk | libs/libufdt/ufdt_overlay.c:333-422 | all fragments are merged exactly if each has a target among the nodes of the base and those that earlier fragments add |
| UfdtAccept.OverlayOk | libs/libufdt/ufdt_overlay.c:579-608 | the overlay is applied exactly if the local fixups, the labels, the entries and the targets lead somewhere |
| UfdtAgree.UMergeAt | libs/libufdt/ufdt_node.c:219-253 | merge_children has at each path the overlay's value before the base's, and the nodes of both |
| UfdtAgree.EmitOrdered | libs/libufdt/ufdt_convert.c:390-418 | the tree written out lists properties before subnodes, as section 5.4.2 of the Devicetree Specification v0.4 asks |
| UfdtAgree.EmitAt | libs/libufdt/ufdt_convert.c:390-418 | writing out loses and changes no node and no value |
| UfdtAgree.EmitSame | libs/libufdt/ufdt_convert.c:390-418 | a tree that lists properties before subnodes is written out as it was read, but for its NOPs |
| UfdtAgree.EnginesAgree | libs/libufdt/ufdt_overlay.c:579-608 | where libfdt applies an overlay, with exact names, targets both can look up and no phandle conflict, libufdt succeeds too and the two trees have the same nodes and values |
| UfdtNames.OffSelects | libs/libufdt/ufdt_convert.c:89-111 | the negative offset of an address in one of the string tables selects, in the tables written out in reverse, the string at that address |
| UfdtBuild.FromFdt | libs/libufdt/ufdt_convert.c:126-172 | the linked tree of the blob's tree without its NOPs, of fresh pool entries, each name pointing into the strings |
| UfdtOut.OutputStrtab | libs/libufdt/ufdt_convert.c:420-453 | the tables of all sources, last first, at the end of the buffer |
| UfdtOut.GetPropertyNameoff | libs/libufdt/ufdt_convert.c:334-350 | the offset selects the property's name, whether reused from the dictionary or computed |
| UfdtOut.OutputProperty | libs/libufdt/ufdt_convert.c:352-388 | one more property tag exactly if there is room in front of the strings; else an error, or a store over the strings, after which the blob can no longer be finished |
| UfdtOut.OutputNode | libs/libufdt/ufdt_convert.c:390-418 | the tags of the node with its properties before its subnodes |
| UfdtOut.UfdtToFdt | libs/libufdt/ufdt_convert.c:455-497 | succeeds if and only if the blob fits, and then decodes to the tree written out, with the first blob's reserve entries |
| UfdtApply.RoundTrip | libs/libufdt/ufdt_convert.c:307-497 | unflattening and flattening gives a blob that decodes to the tree there was, and succeeds exactly if it fits |
| UfdtSizes.MergeSize | libs/libufdt/ufdt_node.c:219-253 | merged lists take no more room than the two lists |
| UfdtSizes.ApplySize | libs/libufdt/ufdt_overlay.c:579-608 | the result of applying an overlay takes no more room than base and overlay |
| UfdtApply.EnoughRoom | libs/libufdt/ufdt_overlay.c:661-663 | main size plus overlay size is enough for the blob, for inputs whose blocks do not overlap |
| UfdtApply.ApplyFragments | libs/libufdt/ufdt_overlay.c:404-422 | the loop over the fragments on linked nodes does what it does on values, leaves the fragments to come untouched, and returns an error exactly when one has no target |
| UfdtApply.OverlayTrees | libs/libufdt/ufdt_overlay.c:579-608 | on linked trees all passes together give the value-level result, or fail with both trees still whole |
| UfdtApply.ApplyOverlay | libs/libufdt/ufdt_overlay.c:642-698 | from two blobs to one: success exactly when the overlay applies (the condition is that of UfdtAccept.ApplyOverlayOk), a blob that decodes to the result, and on success and failure alike no pool entry live |
| UfdtHeap.MergeShares | libs/libufdt/ufdt_node.c:219-267 | every node of the two lists is linked in one place in the merged list or given back once |
| UfdtHeap.Nodes.MergeChildren | libs/libufdt/ufdt_node.c:219-253 | relinking the children gives the recursive merge, and the nodes of the overlay are in it or given back |
| UfdtLife.Destruct | libs/libufdt/ufdt_node.c:52-65 | a node and all below it are given back, each once |
| UfdtLife.Release | libs/libufdt/ufdt_convert.c:55-63 | after both trees are destructed nothing is live |
| NodePools.Pool.Alloc | libs/libufdt/ufdt_node_pool.c:176-198 | an entry that was not live, in a pool where free and live entries make up each block, free blocks come first and at most one is empty |
| NodePools.Pool.Free | libs/libufdt/ufdt_node_pool.c:218-243 | the entry is free again, and the pool keeps all that |
| PhandleTable.BuildTable | libs/libufdt/ufdt_convert.c:255-305 | a sorted table with the phandle of every node that has one: the pass that counts and the pass that fills agree |
| PhandleTable.NodeHasEntry | libs/libufdt/ufdt_convert.c:265-305 | every node with a phandle has its entry |
| PhandleTable.OneEntryEach | libs/libufdt/ufdt_convert.c:265-278 | no node has two entries |
| PhandleTable.MaxOfTable | libs/libufdt/ufdt_overlay.c:70-76 | the last entry's phandle is the greatest of the tree |
| PhandleTable.NodeByPhandle | libs/libufdt/ufdt_convert.c:233-253 | the binary search finds what a search of the whole tree finds |
| PropDicts.PropDict.Find | libs/libufdt/ufdt_prop_dict.c:143-148 | the property added last under the name, or none |
| PropDicts.PropDict.Add | libs/libufdt/ufdt_prop_dict.c:129-141 | the map from names to properties with one entry put in; probe chains stay whole and a third of the slots empty |
| PropDicts.PropDict.EnlargeIfNeeded | libs/libufdt/ufdt_prop_dict.c:96-127 | a table of twice the size holds the same map |
| Qsort.Partition | libs/libufdt/sysdeps/libufdt_sysdeps_vendor.c:122-152 | the four regions, equal, less, greater, equal to the pivot, of a permutation of the run |
| Qsort.Qsort | libs/libufdt/sysdeps/libufdt_sysdeps_vendor.c:94-179 | the array is sorted and a permutation of what it was, for every length and every total preorder |
| NodeIndex.NodeOffsetByPhandle | libs/libfdt/fdt_ro.c:710-733 | the offset of the first node with the phandle, or that no node of the blob has it |
| NodeIndex.OneByPhandle | libs/DTBExtnLib/DTBExtnLib_node.c:913-985 | where phandles are unique any node with the phandle, so also the cached one, is the one that the search finds |
| NodeIndex.FindMaxPhandle | libs/libfdt/fdt_ro.c:114-140 | the greatest phandle of all nodes |
| NodeIndex.SubFound | libs/DTBExtnLib/DTBExtnLib_node.c:520-557 | the subnode found below the parent's entry is the node that the whole path leads to, whatever slashes the path has |
| NodeIndex.Index.GetNodeHandle | libs/DTBExtnLib/DTBExtnLib_node.c:775-903 | answers as fdt_path_offset does, from the table, by the parent, or by falling back, after any sequence of table builds |
| NodeIndex.Index.GetPhandleNode | libs/DTBExtnLib/DTBExtnLib_node.c:913-985 | a node with the phandle, or that there is none, after any sequence of table builds |
| NodeIndex.Index.CreateTable | libs/DTBExtnLib/DTBExtnLib_node.c:2037-2086 | every node of the blob gets an entry, and every entry stands for a node; a second build for a blob empties all tables |
| Select.ScoreEligible | libs/DTSelectLib/dt_select.c:2023-2361 | an overlay is for the device if and only if it names the chip or none, for a board its type, its subtype or none and its OEM variant, and no later version of either |
| Select.ScoreOrder | libs/DTSelectLib/dt_select.c:2279-2415 | of two such overlays the second is the better exactly if (subtype named, chip named, board version, chip version), or (chip named, chip version) for the chip's, is lexicographically greater |
| Select.CandidateIs | libs/DTSelectLib/dt_select.c:1532-1562 | an entry is a candidate exactly if it has chip-info for the family, says what kind of tree it is, and has the name and every value asked for |
| Select.FirstChipIs | libs/DTSelectLib/dt_select.c:863-951 | the chip-info is the first of the family in the property, or there is none |
| Select.HasNumberIs | libs/DTSelectLib/dt_select.c:1322-1525 | a value is found exactly if it is one of the numbers of that size in the property |
| Select.StartsSomeIs | libs/DTSelectLib/dt_select.c:1122-1320 | a name is found exactly if a string of the property begins with it |
| Select.CardFits | libs/DTSelectLib/dt_select.c:852-951 | the parts of the versions that are read fit their fields, so that the order applies |
| Select.Candidate | libs/DTSelectLib/dt_select.c:1532-1562 | reading the properties of `/board-id/` from the blob gives what the tree has there, and the filter's verdict, or the division by zero on an is-overlay property that is not empty |
| Select.NextEntry | libs/DTSelectLib/dt_select.c:1582-1711 | in an image of appended blobs the step finds each blob's size and the end, with and without the image size, and fails exactly on a header that is not at a multiple of 8 |
| Select.SelectTrees | libs/DTSelectLib/dt_select.c:1763-1925 | the walk fails with what goes wrong first, exactly when something does; else it looks at each blob once and returns the first base tree at version 1.0 and, for each kind of overlay, the first of the overlays for the device that no other is better than, in the order of Select.ScoreOrder |
| Select.WalksIff | libs/DTSelectLib/dt_select.c:1582-1925 | it succeeds if and only if every entry has its node and can be read, and the start and the sizes in front of the last header looked at are multiples of 8 |
| Misaligned.SecondMisaligned | libs/libfdt/fdt.c:89-95 | an image of known size with two valid blobs of 92 bytes, on which the selection fails at the second |
| Misaligned.EndMisaligned | libs/libfdt/fdt.c:89-95 | an image of unknown size with one such blob, on which it fails at the end |

## Left out

- FdtRead.FirstSubnode: is stated for positions of an encoded tree; on other offsets and malformed bytes the source returns the tag's error.
- FdtRead.NextNode: is stated for positions of an encoded tree, and for a start before the first tag.
- FdtRead.NextSubnode: is stated for a node of an encoded tree that is not the root.
- FdtRw.DelNode: the root is not deleted; the source would leave a blob without a root.
- FdtWip.NopNode: the root is not blanked, likewise.
- FdtSw.Writer.Property: asks that table and name fit the buffer and that the value is shorter than 2 GiB, because the source's unsigned subtraction and its sizes wrap otherwise.
- Programs.RunBalanced: calls on a finished blob (BADSTATE) and unknown flags of fdt_create_with_flags are not calls of a program.
- OverlayMerge.ApplyNode: the merge of one node is done on the bytes; the other passes over an overlay, and the symbol update, are functions of its tree, each storing a cell where the source stores it in the buffer.
- OverlayProof.ReferencesFollow: local fixups that list a cell outside the property, which the source would write to, are an explicit error of the model (WILD) and so outside the theorem.
- OverlayProof.PhandlesSafe: asks that the overlay's names, phandles and local fixups are as they should be (`Refs.Sound`): siblings have different names, also under the names that local fixups give them, and phandles are unique; and that its fixups change no phandle and no local reference (`Refs.FixupsSound`).
- Symbols.SymbolsResolve: asks that labels are spelled in full, that none is called phandle or changed by a fixup, and that a target given by phandle can be spelled without standing for an earlier sibling.
- UfdtAgree.EnginesAgree: asks, beyond what libfdt needs, for exact names, properties before subnodes, target paths that are absolute, and no phandle conflict, because the engines differ elsewhere.
- ApplyAccept.ApplyOk: asks, as the theorems about the result do, that names are unique and the overlay sound, and that no local fixup is about a target-path; targets are looked up in the base as it has grown by then (`Merged.MergeAllWrites` says how).
- UfdtAccept.OverlayOk: asks that entries name their nodes by absolute paths, that names are unique, and that no property of the fixups is called phandle and no local fixup is about them; a target of less than four bytes, which the source would read past, is no success.
- BaseRefs.LabelsFollow: asks that no other entry is about bytes of the cell; where entries overlap the last one wins.
- UfdtOut.OutputProperty: once a property has been stored over the strings, the offset that the dictionary gives is any number.
- UfdtApply.ApplyOverlay: the sum of the two sizes is at most INT_MAX; the passes before the merge compute the overlay's values on the tree that is read from the nodes, and store them back into the nodes.
- Check.CheckFull: versions before 17 and assumption masks other than 0 are not modelled.
- NodeIndex.Index.GetNodeHandle: asks that the path has fewer than 256 bytes and fewer levels than the table, which the source assumes, that no other indexed path has the hash of the path or of its parent, and that names are unambiguous; the hash is any function.
- Select.SelectTrees: asks that the device's versions fit the fields that hold them, as its types do; the image is a concatenation of valid blobs; what the source does with a broken one is modelled in Select.NextEntry only as an error; addresses do not wrap.
- Checks of header cells (magic, version, alignment) before each editing call, and the erasing of the magic after an overlay, because `Blob` and `Writer` keep the header cells as fields.
- Blobs that fdt_check_full would reject as inputs of edits.
- Names are without NUL bytes and their length argument is that of the string; lengths near INT_MAX do not wrap.
- fdt_open_into and fdt_pack, whose only hard part is moving blocks that overlap, fdt_add_mem_rsv and fdt_del_mem_rsv.
- ufdt_apply_multioverlay: it repeats ufdt_apply_overlay's steps in a loop over overlays.
- Failures of memory allocation, and the bytes behind pool entries: a pointer is a block and an entry.
- The hash functions, and the fast paths of the vendor qsort that swap by words.
- Logging, timers, allocators, the command-line tools, the typed property getters of DTBExtnLib and get_dt.c.
