# PurC variant observers, sets and string helpers, in Dafny

This project models four parts of PurC, the HVML interpreter library, and
proves properties of the model:

- **The listener registry and reverse-update edges** (`Observer`,
  `observer.dfy`). `Variants` (`variants.dfy`) holds the values they work on.
  - A container value owns a list of listeners. A PRE listener is pushed at
    the head and a POST listener is appended at the tail, so the list is
    always every PRE entry, newest first, then every POST entry, oldest
    first.
  - Firing PRE listeners walks from the head. It stops at the first veto or
    at the first matching POST entry.
  - Firing POST listeners walks from the tail. It stops at the first
    matching PRE entry.
  - A container that sits inside a set has one edge slot: its parent, its
    anchor, and the PRE and POST listeners the edge registered on it. The
    slot is filled by building an edge and cleared by breaking it.
  - The parent links form the reverse-update chain, which is followed up to
    its top.
- **The set container** (`VariantSet` in `variant_set.dfy`, `SetKeys` in
  `set_keys.dfy`, `SetIteration` in `set_iterator.dfy`).
  - A set's members are objects that are unique by a key. The key is the
    projection of a member onto the set's key names.
  - Each member is held by a node. The nodes are linked both into a
    red-black tree ordered by key and into an array list in document order,
    and each node caches its array position.
  - The model keeps the tree as its in-order sequence `elems`. The
    comparator is an injective `rank` function on keys.
  - The central invariant `VSet.Valid` says that the tree and the array
    hold the same nodes without repeats, that `elems` ascends by key, that
    every node's key is its member's projection, and that every node's
    `idx` is its array position. Every operation keeps it.
- **The endpoint and HVML-URI helpers of the utility library**
  (`PurcHelpers`, `purc_helpers.dfy`, with the C-library helpers in `CText`,
  `ctext.dfy`):
  - token and identifier validators;
  - `@host/app/runner` extraction and assembly;
  - application names made of dots and tokens;
  - assembly and splitting of `hvml://host/app/runner/group/page`;
  - query-value lookup.
- **The renderer-protocol helpers** (`PcrdrHelpers`, `pcrdr_helpers.dfy`):
  - the sorted return-code message table and its binary search;
  - the total error-code to return-code mapping;
  - the protocol's own token, application-name and endpoint-name checks.

The model takes the source's form:

- The listener and set operations are methods on classes whose fields they
  change: `Variant.listeners`, `Variant.chain`, `VSet.elems`, `VSet.arr`,
  `SetNode.idx`, `SetNode.constraints` and `SetIterator.curr/prev/next`.
- Every scanning loop of the helpers is a `while` loop. Each one is proved
  against a specification function, and the properties are proved as
  lemmas about those functions.
- Output buffers are `array<char>`. A writer stores its text and a NUL and
  leaves the rest of the buffer as it was.
- `pcrdr_is_valid_app_name` writes NULs into its input buffer and restores
  them, and the model does the same.

Parameters stand in for what the code cannot see:

- The `PURC_LEN_*`, `PCRDR_LEN_*` and `MD5_DIGEST_SIZE` limits are a
  `Limits` value.
- Handlers are foreign code. Whether a PRE handler vetoes is a `verdict`
  function of the listener and the operation.
- Whether an allocation succeeds is a boolean parameter (`alloc`,
  `allocPre`, `allocPost`).

The endpoint extractors and assemblers of the renderer-protocol helpers are
the same code as those of the utility library, and so are its unique-id and
md5-id checks. They are modelled once, in `PurcHelpers`, and both sources
are cited below.

## Model

| member | source | states |
|---|---|---|
| Observer.Without | Source/PurC/variant/observer.c:118-134 | unlinking an entry that is absent leaves the list alone; unlinking one that is present removes exactly one entry |
| Observer.WithoutAt | Source/PurC/variant/observer.c:118-134 | unlinking the first occurrence, at position k, keeps the entries before and after it in order |
| Observer.WithoutDistinct | Source/PurC/variant/observer.c:105-134 | in a list without repeats, revoking removes exactly that listener, keeps every other one, and keeps the list free of repeats and in phase order |
| Observer.PhaseOrderedRegister | Source/PurC/variant/observer.c:51-55 | pushing PRE at the head and appending POST at the tail keeps the list in phase order: all PRE entries, then all POST entries |
| Observer.RevokeUndoesRegister | Source/PurC/variant/observer.c:33-58 | revoking a listener just registered at either end gives the original list back |
| Observer.RegisterListener | Source/PurC/variant/observer.c:33-58 | a failed allocation gives OUT_OF_MEMORY and no change; otherwise a fresh listener with the given fields is put at the head (PRE) or at the tail (POST) |
| Observer.RegisterPhaseListener | Source/PurC/variant/observer.c:60-102 | an op mask that is not a non-zero subset of ALL, a null handler or a null value gives WRONG_ARGS; a non-container gives NOT_SUPPORTED; the list is unchanged unless a listener is returned, placed by its phase |
| Observer.RegisterPreListener | Source/PurC/variant/observer.c:61-80 | the argument errors as above; on success the new PRE listener heads the list before the old entries |
| Observer.RegisterPostListener | Source/PurC/variant/observer.c:83-102 | the argument errors as above; on success the new POST listener follows the old entries |
| Observer.RevokeListener | Source/PurC/variant/observer.c:105-134 | a null argument gives WRONG_ARGS and a non-container NOT_SUPPORTED, with the list unchanged; otherwise the result is true exactly when the listener was in the list, which loses that entry and keeps the order of the rest |
| Observer.PreFireFacts | Source/PurC/variant/observer.c:136-165 | every handler called is a matching PRE listener of the list; the walk succeeds exactly when every called handler agreed; a veto is the last call |
| Observer.PreFireAllAgree | Source/PurC/variant/observer.c:136-165 | when no handler vetoes, a phase-ordered list calls exactly its matching PRE listeners, in list order (newest first) |
| Observer.PreFireAt | Source/PurC/variant/observer.c:148-162 | one step of the walk: a non-matching entry is skipped, a matching POST entry stops with success, a veto stops with failure after that call, and an agreeing PRE entry is called and the walk goes on |
| Observer.OnPreFired | Source/PurC/variant/observer.c:136-165 | the method's success and its sequence of handler calls are those of the head-to-tail walk for `op & ALL`, which must not be ALL |
| Observer.PostFire | Source/PurC/variant/observer.c:167-193 | the handlers the tail-to-head walk calls are matching POST listeners of the list |
| Observer.PostFireIsReverse | Source/PurC/variant/observer.c:167-193 | in a phase-ordered list the POST walk calls exactly the matching POST listeners, newest first (the reverse of list order) |
| Observer.OnPostFired | Source/PurC/variant/observer.c:167-193 | the method calls the handlers of the tail-to-head walk for `op & ALL`, which must not be ALL |
| Observer.BuildEdge | Source/PurC/variant/observer.c:504-551 | with an empty slot and a parent that is a set or belongs to one: success exactly for a container whose two listeners are allocated; then the slot holds the edge plus two fresh listeners (PRE and POST, op ALL, the reverse-update handlers, with the value's slot, modelled as the value, as context) and the list gains exactly those two, one at each end; on failure the list and the slot are unchanged |
| Observer.BuildEdgeAsWritten | Source/PurC/variant/observer.c:525-546 | the rollback as written: when the POST listener cannot be allocated, revoking the slot's still-null PRE handle fails, and the new PRE listener stays linked at the head |
| Observer.BreakEdge | Source/PurC/variant/observer.c:250-311 | an empty slot is left alone along with the list; otherwise both edge listeners are revoked and the slot is cleared |
| Observer.BuildBreakRestores | Source/PurC/variant/observer.c:250-311 | breaking a freshly built edge gives the listener list back as it was before the build |
| Observer.OnlyTopHasNoParent | Source/PurC/variant/observer.c:588-624 | on a chain of parents, only the last value has no parent |
| Observer.ParentPathUnique | Source/PurC/variant/observer.c:588-624 | a value has at most one chain of parents |
| Observer.TopInRevUpdateChain | Source/PurC/variant/observer.c:588-624 | the loop returns the last value of the value's chain of parents: the one without a parent, every earlier value having one |
| Observer.RueDownward | Source/PurC/variant/observer.c:196-224 | arrays and objects walk their children; sets and scalars do nothing (also `pcvar_build_rue_downward`, lines 314-340) |
| Observer.EdgeToParent | Source/PurC/variant/observer.c:227-247 | only mutable values have a parent edge to follow, and a set follows its own; the same dispatch is at lines 343-360 |
| SetKeys.WordLen | Source/PurC/variant/variant-set.c:176-200 | the length of the leading run of non-space characters, which ends at a space or at the end |
| SetKeys.InitKeys | Source/PurC/variant/variant-set.c:153-206 | the `strtok_r` loop over the unique key gives the key names of the corrected initialisation: no key, an empty key or an all-space key gives no key names; otherwise the space-separated tokens in order |
| SetKeys.TokensWellFormed | Source/PurC/variant/variant-set.c:176-200 | every key name is non-empty and holds no space |
| SetKeys.NoTokensIffBlank | Source/PurC/variant/variant-set.c:176-200 | a unique key yields no key names exactly when it is all spaces |
| SetKeys.TokensOfJoin | Source/PurC/variant/variant-set.c:176-200 | cutting words joined by spaces gives the words back |
| SetKeys.BreakFieldsExact | Source/PurC/variant/variant-set.c:491-523 | the corrected walk that breaks the members' edges visits exactly the key fields, or every field when there is no unique key |
| SetKeys.BlankKeyBreakFails | Source/PurC/variant/variant-set.c:176-200 | as written, an all-space unique key leaves a single NULL key name with count 1, and the edge-breaking walk over a member then reads that NULL name |
| SetKeys.BlankKeyBreakCorrected | Source/PurC/variant/variant-set.c:153-206 | with the corrected key names an all-space key behaves as no unique key, and the walk visits every field |
| SetKeys.AsWrittenAgrees | Source/PurC/variant/variant-set.c:153-206 | away from non-empty all-space keys, the source's key fields and its edge-breaking walk are the corrected ones |
| SetKeys.ProjectionExact | Source/PurC/variant/variant-set.c:209-245 | the key projection holds exactly the named fields present in the member, with the member's values; without a unique key it is the whole member |
| SetKeys.KvsFromVal | Source/PurC/variant/variant-set.c:209-245 | the loop over the key names, skipping absent fields, computes the projection |
| SetKeys.CreateKvsN | Source/PurC/variant/variant-set.c:617-653 | one argument per key name: it fails with INVALID_VALUE exactly when an argument is invalid; otherwise the tuple of the defined arguments, with `undefined` skipped |
| SetKeys.TupleOfMember | Source/PurC/variant/variant-set.c:617-653 | spelling out a member's key values argument by argument gives its projection |
| SetKeys.UnionFields | Source/PurC/variant/variant-set.c:745-782 | the union copies every new field and keeps the old-only fields: new fields win |
| SetKeys.CopyFields | Source/PurC/variant/variant-set.c:754-763 | the first loop copies the new member's fields |
| SetKeys.AddMissing | Source/PurC/variant/variant-set.c:765-776 | the second loop adds the old member's fields the output lacks, which gives the union |
| SetKeys.UnionKeepsKey | Source/PurC/variant/variant-set.c:785-841 | when the old and new members have the same key, so does their union, so an overwrite keeps the node's place in the tree |
| VariantSet.RevokeConstraints | Source/PurC/variant/variant-set.c:276-288 | the node's constraint listener, if any, is unlinked from its member and the handle cleared; nothing else of the member's list changes |
| VariantSet.SetupConstraints | Source/PurC/variant/variant-set.c:462-488 | on success the member's list gains at its head exactly one PRE listener for every operation, with the constraint handler and the set as context; on failure nothing is registered and the handle is null |
| VariantSet.KvsIndex | Source/PurC/variant/variant-set.c:343-383 | the position of the first node with the given key, or the length when there is none |
| VariantSet.AscendingKeysDiffer | Source/PurC/variant/variant-set.c:702-742 | the nodes of an ordered tree hold pairwise different keys |
| VariantSet.LinkKeeps | Source/PurC/variant/variant-set.c:720-735 | linking a new node at its tree position and at the end of the array keeps the invariant: same nodes, ascending keys, projected keys and positions |
| VariantSet.UnlinkKeeps | Source/PurC/variant/variant-set.c:680-699 | unlinking one node from both the tree and the array keeps the same nodes, the order and the keys, drops that node, and leaves the positions before it right |
| VariantSet.RemovedKeyGone | Source/PurC/variant/variant-set.c:680-699 | after the unlink no node holds the removed node's key |
| VariantSet.ShiftDown | Source/PurC/variant/variant-set.c:1141-1172 | deleting array position k keeps the earlier entries and shifts every later entry down by one |
| VariantSet.SameNodesPermutation | Source/PurC/variant/variant-set.c:1421-1443 | the tree's nodes and the array's nodes are permutations of each other |
| VariantSet.VSet.constructor | Source/PurC/variant/variant-set.c:153-206 | a new set is empty and satisfies the invariant |
| VariantSet.SetNode.constructor | Source/PurC/variant/variant-set.c:656-677 | a new node holds its member and key, with no constraint listener yet |
| VariantSet.VSet.FindElement | Source/PurC/variant/variant-set.c:343-383 | found means a node with that key is at the position; not found means no node holds the key, and the position is its insertion point in key order |
| VariantSet.VSet.RefreshArr | Source/PurC/variant/variant-set.c:568-579 | renumbers every position from `from` on and leaves earlier ones alone; `-1` renumbers nothing; renumbering from k after right positions below k makes every position right |
| VariantSet.VSet.Unlink | Source/PurC/variant/variant-set.c:680-699 | the node leaves the tree at its key's position and the array at its `idx`; the invariant holds again |
| VariantSet.VSet.SetRemove | Source/PurC/variant/variant-set.c:680-699 | succeeds exactly when the SHRINK listeners do not veto (or there is no check); a veto changes nothing; on success the node is unlinked from both structures, its `idx` is -1 and its constraint listener is revoked |
| VariantSet.VSet.Detach | Source/PurC/variant/variant-set.c:686-698 | the part of the removal after the veto: unlink, mark unindexed, revoke the constraint listener |
| VariantSet.VSet.Link | Source/PurC/variant/variant-set.c:720-735 | the new node goes to the end of the array, with `idx` its position, and into the tree at its key's place |
| VariantSet.VSet.InsertNode | Source/PurC/variant/variant-set.c:702-742 | on success the set gains one node at the end of document order and at its key's place in the tree, with a constraint listener on the member; a failed constraint setup is rolled back by the removal and leaves the set as it was |
| VariantSet.VSet.Insert | Source/PurC/variant/variant-set.c:702-742 | succeeds exactly when GROW is not vetoed and setup succeeds; a GROW veto leaves the set unchanged; on success the size grows by one and the new member is last in document order |
| VariantSet.VSet.ElemNodeReplace | Source/PurC/variant/variant-set.c:541-565 | the node holds the new member, the old member loses the node's constraint listener, and the new member gains one unless the registration fails |
| VariantSet.VSet.ReplaceMember | Source/PurC/variant/variant-set.c:785-841 | unless CHANGE is vetoed, the member becomes a fresh object holding the union of the old and new fields at the same node; the old member loses the node's constraint listener, and the fresh member's only listener is the new constraint listener, or it has none and the node none when that registration fails; a veto keeps the member and its listeners |
| VariantSet.VSet.InsertOrReplace | Source/PurC/variant/variant-set.c:785-841 | a new key is inserted (unless GROW is vetoed); a held key without overwrite gives NOT_SUPPORTED unchanged; the identical member is a no-op success; with overwrite the member becomes the union unless CHANGE is vetoed; the document order and tree nodes of a held key never change; no node is lost, every new node is fresh, and every node holding another key keeps its member, its constraint listener and its member's listeners; the listeners (`AddListeners`): an inserted value gains the new node's constraint listener at the head of its list and is last in the array, a value not inserted keeps its list; a holder left alone keeps its constraint listener and member's listeners; a replaced member loses the holder's constraint listener and its successor has only the new one, or none when that registration fails |
| VariantSet.VSet.Add | Source/PurC/variant/variant-set.c:983-999 | a null or non-object value gives INVALID_VALUE and no change; otherwise the outcome of the insert-or-replace with the listeners consulted, including its listener lists (`AddListeners`), and on success the key is held; a failure leaves the tree and the array as they were; no node is lost, and every node holding another key keeps its member, its constraint listener and its member's listeners |
| VariantSet.VSet.Remove | Source/PurC/variant/variant-set.c:1002-1030 | a held key is removed unless SHRINK is vetoed, and the result is whether it was; its node leaves the tree at its key's place and the array at its cached position, every other node staying in order, and its member loses the node's constraint listener; an absent key gives `silently` and no change; every remaining node keeps its member, its constraint listener and its member's listeners |
| VariantSet.VSet.GetMemberByKeyValues | Source/PurC/variant/variant-set.c:1033-1057 | a set without a unique key gives NOT_SUPPORTED and an invalid argument INVALID_VALUE; otherwise the member whose key is the argument tuple, or null when none holds it |
| VariantSet.VSet.LookupFindsMember | Source/PurC/variant/variant-set.c:1033-1057 | the key values read off a member find that member |
| VariantSet.VSet.RemoveMemberByKeyValues | Source/PurC/variant/variant-set.c:1060-1102 | the same argument errors; an absent key gives NOT_FOUND; a held key's member is removed and returned unless SHRINK is vetoed, its node leaving the tree at its key's place and the array at its cached position, and the member losing the node's constraint listener; every remaining node keeps its member, its constraint listener and its member's listeners |
| VariantSet.VSet.Size | Source/PurC/variant/variant-set.c:1105-1118 | the number of members in either structure |
| VariantSet.VSet.GetByIndex | Source/PurC/variant/variant-set.c:1121-1138 | the member at array position `idx`, whose node caches that position, or null out of range |
| VariantSet.VSet.RemoveByIndex | Source/PurC/variant/variant-set.c:1141-1172 | out of range gives OUT_OF_BOUNDS and no change; otherwise, unless SHRINK is vetoed, the member at `idx` is removed, earlier members stay, later ones shift down by one with their positions renumbered, and the size drops by one: the array is the old one without position `idx`; the removed member loses the node's constraint listener and no remaining node holds it; every other value keeps its listeners, every remaining node keeps its member, its constraint listener and its member's listeners, and every key's holder is what it was among the other nodes |
| VariantSet.VSet.SetByIndex | Source/PurC/variant/variant-set.c:1175-1198 | out of range gives OUT_OF_BOUNDS and no change; replacing a member by itself is a no-op success; otherwise the old member's node is gone exactly when SHRINK is not vetoed, and a veto leaves the set unchanged; once removed, the old member loses the node's constraint listener; every other node stays, and those holding another key than the new value's keep their member, constraint listener and member's listeners; on success the new value is either merged into the fields of the node already holding its key, the array being the old one without position `idx`, or appended to that array; a failure after the removal still loses the old member, the array being the old one without position `idx`; the new value's and its key holder's listeners are those of the add (`AddListeners`), against the holder among the other nodes before the removal |
| VariantSet.VSet.Replace | Source/PurC/variant/variant-set.c:1190-1197 | the replacement once the checks have passed: the member at `idx` is removed unless SHRINK is vetoed, a veto leaving the set unchanged; then the value is added with overwrite, with the same outcome, array, frames and listener lists that `SetByIndex` states for this case |
| VariantSet.VSet.ReAdd | Source/PurC/variant/variant-set.c:1194 | the add with overwrite that completes the replacement, stated against the tree before the removal: on success the earlier holder of the key, unless it was the removed node, takes the union of its fields and the new ones in place, and otherwise the value is appended to the array; a failure leaves the array alone; the listener lists are those of the add (`AddListeners`) against that earlier holder; the removed node stays out, its member's listeners are unchanged, no other node is lost, and nodes holding other keys are untouched |
| VariantSet.VSet.ConstraintChangeHandler | Source/PurC/variant/variant-set.c:386-434 | the edit of field `kn` is allowed exactly when no other member holds the key the edited member would have |
| VariantSet.VSet.Sort | Source/PurC/variant/variant-set.c:1421-1443 | the tree is unchanged; the array becomes a permutation of itself sorted by key, and every `idx` is renumbered from 0 |
| SetIteration.SetIterator.Refresh | Source/PurC/variant/variant-set.c:1207-1234 | `prev` and `next` become the key-order neighbours of `curr`, null past either end |
| SetIteration.SetIterator.Next | Source/PurC/variant/variant-set.c:1311-1324 | moves to the member with the next greater key; false, with no current member, after the last one |
| SetIteration.SetIterator.Prev | Source/PurC/variant/variant-set.c:1327-1340 | moves to the member with the next smaller key; false, with no current member, before the first one |
| SetIteration.SetIterator.GetValue | Source/PurC/variant/variant-set.c:1343-1352 | the current member, or null |
| SetIteration.MakeBegin | Source/PurC/variant/variant-set.c:1237-1267 | an empty set gives NOT_FOUND and no iterator; a failed allocation gives OUT_OF_MEMORY and no iterator; otherwise an iterator at the least key, with `prev` null |
| SetIteration.MakeEnd | Source/PurC/variant/variant-set.c:1270-1300 | an empty set gives NOT_FOUND and no iterator; a failed allocation gives OUT_OF_MEMORY and no iterator; otherwise an iterator at the greatest key, with `next` null |
| CText.FindFirst | Source/PurC/utils/helpers.c:108 | `strchr` from a position: the first occurrence after it, or none |
| CText.FindLast | Source/PurC/utils/helpers.c:175-176 | `strrchr`: the last occurrence |
| CText.RunLength | Source/PurC/utils/helpers.c:501-523 | the length of the run up to the first stop character or the end, which the run does not contain |
| CText.WriteString | Source/PurC/utils/helpers.c:116-117 | `strncpy`/`stpcpy` followed by a terminator: the text and a NUL at the offset, the rest of the buffer unchanged |
| PurcHelpers.IsValidToken | Source/PurC/utils/helpers.c:38-58 | accepts exactly a `_` or letter followed by letters, digits and `_`, and with a positive `max_len` at most `max_len + 1` characters |
| PurcHelpers.IsValidLooseToken | Source/PurC/utils/helpers.c:60-80 | the same, with `-` also allowed after the first character |
| PurcHelpers.TokenIsLooseToken | Source/PurC/utils/helpers.c:38-80 | every token is a loose token, and a token contains no `/`, `.`, `@` or `-` |
| PurcHelpers.HostNameOf | Source/PurC/utils/helpers.c:103-120 | the host name is found only after a leading `@` and before the first `/`; it is non-empty, holds no `/` and is at most the application-name limit |
| PurcHelpers.AppNameOf | Source/PurC/utils/helpers.c:136-155 | the application name is non-empty and within its limit |
| PurcHelpers.RunnerNameOf | Source/PurC/utils/helpers.c:171-188 | the runner name is the text after the last `/`, within its limit and without `/` |
| PurcHelpers.EndpointRoundTrip | Source/PurC/utils/helpers.c:103-264 | extracting the three parts of an assembled name gives back a non-empty, slash-free host, application and runner within their limits |
| PurcHelpers.EndpointReassembles | Source/PurC/utils/helpers.c:103-188 | a name whose three parts can all be extracted is the assembly of those parts |
| PurcHelpers.ExtractHostName | Source/PurC/utils/helpers.c:103-120 | writes the host part and returns its length, or returns 0 and writes nothing; the protocol's copy at Source/PurC/pcrdr/helpers.c lines 225-242 is the same code |
| PurcHelpers.ExtractAppName | Source/PurC/utils/helpers.c:136-155 | writes the application part and returns its length, or returns 0 and writes nothing; the protocol's copy at Source/PurC/pcrdr/helpers.c lines 258-277 is the same code |
| PurcHelpers.ExtractRunnerName | Source/PurC/utils/helpers.c:171-188 | writes the runner part and returns its length, or returns 0 and writes nothing; the protocol's copy at Source/PurC/pcrdr/helpers.c lines 293-310 is the same code |
| PurcHelpers.AssembleEndpointName | Source/PurC/utils/helpers.c:237-264 | a part over its limit gives 0 and writes nothing; otherwise the buffer holds `@host/app/runner` and its length, the sum of the parts' lengths plus 3, is returned; the protocol's copy at Source/PurC/pcrdr/helpers.c lines 326-353 is the same code |
| PurcHelpers.AssembleEndpointNameEx | Source/PurC/utils/helpers.c:204-235 | returns the needed length; it writes the name only when that length is below the buffer size `sz` |
| PurcHelpers.SegmentsAtDot | Source/PurC/utils/helpers.c:318-346 | a name whose first dot is at k passes exactly when the text before it is a non-empty token and the rest passes |
| PurcHelpers.IsValidAppName | Source/PurC/utils/helpers.c:307-349 | accepts exactly names within the limit whose dot-separated segments are all non-empty tokens, a single trailing dot allowed |
| PurcHelpers.JoinedTokensAreAppName | Source/PurC/utils/helpers.c:307-349 | tokens joined by dots, with or without a trailing dot, pass the segment check |
| PurcHelpers.EmptySegmentRejected | Source/PurC/utils/helpers.c:318-346 | a leading dot or two consecutive dots are rejected |
| PurcHelpers.IsValidEndpointName | Source/PurC/utils/helpers.c:82-100 | accepts exactly names whose three parts can be extracted, with a non-empty runner, and whose host, application and runner names are valid |
| PurcHelpers.IsValidUniqueId | Source/PurC/utils/helpers.c:372-387 | accepts exactly letters, digits and `-`, at most the limit plus one characters; the protocol's copy at Source/PurC/pcrdr/helpers.c lines 479-494 is the same code |
| PurcHelpers.IsValidMd5Id | Source/PurC/utils/helpers.c:389-404 | accepts exactly letters and digits, at most twice the digest size plus one characters; the protocol's copy at Source/PurC/pcrdr/helpers.c lines 496-511 is the same code |
| PurcHelpers.HvmlUriAssemble | Source/PurC/utils/helpers.c:438-468 | writes `hvml://host/app/runner/`, followed by `group/page` when a group is given, and returns its length |
| PurcHelpers.GetPathCompLen | Source/PurC/utils/helpers.c:501-511 | the length of the run up to `/` |
| PurcHelpers.GetPathTrailLen | Source/PurC/utils/helpers.c:513-523 | the length of the run up to `?` or `#` |
| PurcHelpers.SplitFirstThree | Source/PurC/utils/helpers.c:525-563 | the scheme matched ignoring case, then three non-empty components each followed by `/` |
| PurcHelpers.SplitGroupPage | Source/PurC/utils/helpers.c:565-585 | a non-empty group followed by `/`, then a non-empty page up to `?` or `#` that does not start with `/` |
| PurcHelpers.HvmlUriSplit | Source/PurC/utils/helpers.c:525-589 | the split is that of the specification function, stopping after three components when no group or page is asked for |
| PurcHelpers.HvmlUriSplitAlloc | Source/PurC/utils/helpers.c:592-679 | the same split into fresh copies, nothing on failure |
| PurcHelpers.SplitOfAssembled | Source/PurC/utils/helpers.c:438-563 | splitting an assembled URI, whatever follows it, gives back its host, application and runner |
| PurcHelpers.SplitOfAssembledFull | Source/PurC/utils/helpers.c:438-589 | with a valid group and page, and nothing, a query or a fragment after them, splitting an assembled URI gives back all five parts |
| PurcHelpers.SplitDescribesUri | Source/PurC/utils/helpers.c:525-563 | conversely, a successful split has valid parts and the URI begins with their assembly, the scheme's case aside |
| PurcHelpers.SplitDescribesUriFull | Source/PurC/utils/helpers.c:525-589 | the same for all five parts, with only a query or a fragment after their assembly |
| PurcHelpers.ScanPairsSound | Source/PurC/utils/helpers.c:705-742 | the scan reports a position only just after a case-insensitive match of `key=` |
| PurcHelpers.ValueStartFollowsKey | Source/PurC/utils/helpers.c:705-742 | a value starts after the first `?`, just after the key and `=` matched ignoring case |
| PurcHelpers.QueryValue | Source/PurC/utils/helpers.c:744-761 | a found value is non-empty and holds no `&` or `#`; an empty key finds nothing |
| PurcHelpers.QueryValueFollowsKey | Source/PurC/utils/helpers.c:693-761 | a found value is the text after `key=` up to the next `&` or `#` |
| PurcHelpers.QueryValueOfPairs | Source/PurC/utils/helpers.c:681-761 | for a query that lists key/value pairs and ends at the end or at `#`, the value found is the value of the first pair whose key matches ignoring case, or nothing when that value is empty |
| PurcHelpers.FlagHidesNextKey | Source/PurC/utils/helpers.c:681-691 | as written, the key scan runs over `&`: in `?f&k=v` the key `k` is not found although its pair is there |
| PurcHelpers.FlagEndsAtAmp | Source/PurC/utils/helpers.c:681-691 | with the key scan also stopping at `&`, the same query finds `v` |
| PurcHelpers.LocateQueryValue | Source/PurC/utils/helpers.c:705-742 | the loop finds the start of the value that the specification function describes |
| PurcHelpers.NextPair | Source/PurC/utils/helpers.c:730-736 | one skip: over the key, then over the value, then over one `&` |
| PurcHelpers.GetQueryValue | Source/PurC/utils/helpers.c:744-761 | true exactly when a value is found, which is then written to the buffer; otherwise the buffer is unchanged |
| PurcHelpers.GetQueryValueAlloc | Source/PurC/utils/helpers.c:763-779 | the same value as a fresh copy |
| PcrdrHelpers.Lookup | Source/PurC/pcrdr/helpers.c:115-138 | the reference lookup: a message exactly when some entry has the code, and then that entry's message |
| PcrdrHelpers.RetTableSorted | Source/PurC/pcrdr/helpers.c:46-110 | the table is sorted by code, and equal codes carry equal messages (the repeated entry at line 91) |
| PcrdrHelpers.RetMessagesKnown | Source/PurC/pcrdr/helpers.c:46-110 | no entry carries the message for unknown codes |
| PcrdrHelpers.MessageKnownIff | Source/PurC/pcrdr/helpers.c:115-138 | a message other than "Unknown Return Code" comes back exactly for the codes in the table |
| PcrdrHelpers.SearchTable | Source/PurC/pcrdr/helpers.c:115-138 | the binary search, with `unsigned int` bounds, returns the message of an entry with the code, or "Unknown Return Code"; the range check before the loop keeps `mid - 1` from wrapping, so every index stays inside the table |
| PcrdrHelpers.LookupOutside | Source/PurC/pcrdr/helpers.c:121-123 | a code below the first or above the last is not in the sorted table |
| PcrdrHelpers.GetRetMessage | Source/PurC/pcrdr/helpers.c:115-138 | the message of the code in the table, or "Unknown Return Code" |
| PcrdrHelpers.ErrcodeToRetcode | Source/PurC/pcrdr/helpers.c:140-180 | total: only "no error" maps to OK, every unlisted code maps to INTERNAL_SERVER_ERROR, and every result is a code of the message table |
| PcrdrHelpers.ErrorsHaveMessages | Source/PurC/pcrdr/helpers.c:140-180 | every return code an error maps to has its own message |
| PcrdrHelpers.SharedRetcodes | Source/PurC/pcrdr/helpers.c:140-180 | two different errors share a return code exactly when they are NOMEM and TOO_SMALL_BUFF, the two unknown-event/request errors, or both map to INTERNAL_SERVER_ERROR |
| PcrdrHelpers.PcrdrTokenIff | Source/PurC/pcrdr/helpers.c:182-202 | the protocol's tokens are the utility library's tokens that do not start with `_` |
| PcrdrHelpers.IsValidToken | Source/PurC/pcrdr/helpers.c:182-202 | accepts exactly a letter followed by letters, digits and `_`, at most `max_len + 1` characters when `max_len` is positive |
| PcrdrHelpers.AppWalk | Source/PurC/pcrdr/helpers.c:396-433 | the walk as written; when it fails at a dot, it names that dot's position |
| PcrdrHelpers.AppWalkAt | Source/PurC/pcrdr/helpers.c:404-430 | one round of the walk: an empty segment fails, a bad token fails, and a good token followed by a dot goes on with the budget reduced by 2 |
| PcrdrHelpers.AppWalkWithinLimit | Source/PurC/pcrdr/helpers.c:396-433 | for names within the limit, the walk as written agrees with the intended check |
| PcrdrHelpers.LongAppNameAccepted | Source/PurC/pcrdr/helpers.c:418-425 | as written, the budget ignores segment lengths: with a limit of 3 the five-character name `ab.cd` is accepted |
| PcrdrHelpers.WalkStep | Source/PurC/pcrdr/helpers.c:404-425 | one round writes NUL over the dot and tests the segment; on success the dot is restored, and on failure it stays overwritten |
| PcrdrHelpers.IsValidAppName | Source/PurC/pcrdr/helpers.c:396-433 | the result is the walk's; the buffer comes back with a NUL only where a failing round overwrote its dot |
| PcrdrHelpers.IsValidAppNameChecked | Source/PurC/pcrdr/helpers.c:396-433 | the corrected check accepts exactly names within the limit whose segments are non-empty protocol tokens |
| PcrdrHelpers.IsValidEndpointName | Source/PurC/pcrdr/helpers.c:204-222 | accepts exactly names whose three parts can be extracted, whose runner is a non-empty protocol token, and whose host and application names are valid |
| PcrdrHelpers.AppNameIsCString | Source/PurC/pcrdr/helpers.c:204-222 | the extracted application name holds no NUL, so the check reads all of it |

`Observer.BelongsToSet`, the model of `pcvar_container_belongs_to_set`
(Source/PurC/variant/observer.c:554-585), is a plain predicate: a container
whose slot has a parent. `Observer.BuildEdge` uses it to say which parents it
accepts.

## Left out

- Red-black rebalancing and node colours: the tree is its in-order sequence.
- The value comparator `purc_variant_compare_ex`: an injective `rank` of keys.
- Reference counting, `purc_variant_unref`, `variant_set_get_extra_size` and the memory statistics.
- `variant_set_init`'s allocation failures and `variant_set_union`'s failures while building the merged object: these allocations always succeed in the model.
- `pcvariant_set_find`, `make_set_c`, `add_val`/`add_valsn`, `pcvariant_set_release`, `pcvariant_set_compare`, `pcvariant_set_clone` and `purc_variant_set_release_iterator`: construction, comparison, copying and freeing, which rest on the value internals listed above.
- The GROW and SHRINK constraint handlers of sets, which only return true, and the constraint dispatcher that routes to them; the CHANGE handler is modelled.
- The GROW and SHRINK reverse-update handlers, which assert that they are never reached, and the empty object CHANGE handler.
- The per-child loops of `pcvar_build_rue_downward` and `pcvar_break_rue_downward` over arrays and objects: only their type dispatch is modelled, since the children's containers are not part of this model.
- `PC_ASSERT` checks and `CHECK_FAIL` paths that do not change state.
- VariantSet.VSet.SetByIndex: where the source asserts that the removal before the add succeeded, the model returns false instead, and where it asserts that the add succeeded, the model returns the add's failure.
- PurcHelpers.IsValidEndpointName: requires the application-name limit to be at most the host-name limit, because the host extractor admits hosts of up to the application-name limit while the caller's host buffer has room for the host-name limit only (Source/PurC/utils/helpers.c:84 and 88); with a larger application limit the C code would write past that buffer, which the model does not describe.
- PcrdrHelpers.IsValidEndpointName: requires the same ordering of the two limits, for the same buffer; and `pcrdr_is_valid_runner_name`, called at Source/PurC/pcrdr/helpers.c:221, is not part of this model: it is taken to be the protocol token check with the runner-name limit.
- Observer.TopInRevUpdateChain: requires the chain of parents to be finite and acyclic; on a cyclic chain the source loop never ends, and the model does not describe that non-termination.
- The allocation failures of `kvs_from_val` and `create_kvs_n` (Source/PurC/variant/variant-set.c:209-245 and 617-653): building a key tuple always succeeds in the model.
- `purc_hvml_uri_split_alloc` does not check its `strndup` results (Source/PurC/utils/helpers.c:607-636), so on an allocation failure it returns true with NULL parts; the model's allocations always succeed.
- `purc_hvml_uri_split` accepts a NULL output buffer for any part and then skips that copy; the model always returns the host, application and runner, and its `wantRest` flag stands for the one NULL case that changes the parse, the group and page both being NULL.
- PcrdrHelpers.ErrcodeToRetcode: `Other(code)` stands only for a code that has no constructor of its own; the datatype does not rule out `Other` carrying a named code such as 0, for which the source's switch takes the named case (0 gives OK, while the model gives INTERNAL_SERVER_ERROR for `Other(0)`).
- The allocation failures of `variant_set_create_elem_node` and `pcutils_arrlist_add` in `insert`: the model's only failure after the GROW check is the constraint setup.
- The edge breaks `elem_node_break_rev_update_edges` performs on a removed member's fields: the model's fields are scalars without edges, so only the fields the walk visits are modelled (`SetKeys.BreakFields` and its as-written twin).
- `pcvar_set_build_edge_to_parent` and `pcvar_set_break_edge_to_parent`: they apply `pcvar_build_edge` and `pcvar_break_edge` to a set's own slot, which `Observer.BuildEdge` and `Observer.BreakEdge` model for any container.
- Observer.OnPostFired: the handlers' return values are not looked at, beyond the source's debug assertion.
- Handlers are foreign code: the model records which handlers are called and in what order, and a handler's vetoes are the `verdict` parameter.
- `purc_generate_unique_id`, `purc_generate_md5_id` and the `pcrdr_generate_*` functions: they use the clock, `random()` and MD5.
- `purc_load_file_contents`: file I/O.
- `purc_get_elapsed_seconds`, `pcrdr_get_elapsed_seconds` and `purc_monotonic_time_after`: the clock and floating point.
- `purc_is_valid_host_name` and `purc_is_valid_runner_name`: the first is a stub that accepts anything; the second is not part of this model and is taken to be the token check with the runner limit.
- The `_alloc` variants of the extractors and assemblers: they are the buffer versions writing into a fresh buffer.
- The JSON string escaper of the renderer-protocol helpers: it is compiled out.
- Locales: `isalpha`, `isalnum` and `tolower` are those of the C locale.

## Findings

| source | as written | input that shows it | evidently intended | confidence | as-written member | corrected member |
|---|---|---|---|---|---|---|
| Source/PurC/variant/observer.c:541 | when the POST listener cannot be registered, the rollback revokes `edge_in_val->pre_listener`, which is still NULL at that point | any container whose POST registration fails after its PRE registration succeeded | revoke the PRE listener just registered, leaving the list as it was | not executed | Observer.BuildEdgeAsWritten | Observer.BuildEdge |
| Source/PurC/pcrdr/helpers.c:418-425 | the length budget is reduced by the token check's boolean result plus one per dot, not by the segment's length | `ab.cd` with an application-name limit of 3 is accepted | reject names longer than the limit, as the utility library's check does | not executed | PcrdrHelpers.LongAppNameAccepted | PcrdrHelpers.IsValidAppNameChecked |
| Source/PurC/variant/variant-set.c:176-200 | a unique key made only of spaces yields a key-name array holding one NULL with count 1, and the edge-breaking walk at lines 491-523 then compares field names with NULL | the unique key `" "` | treat an all-space key as no key: zero key names | not executed | SetKeys.BlankKeyBreakFails | SetKeys.BlankKeyBreakCorrected |
| Source/PurC/utils/helpers.c:681-691 | `get_key_len` stops only at `=` or `#`, so a bare flag runs into the following pair | `hvml://h/a/r/?f&k=v`: the key `k` is not found | the key ends at `&` as well, so the lookup finds `v` | not executed | PurcHelpers.FlagHidesNextKey | PurcHelpers.FlagEndsAtAmp |
