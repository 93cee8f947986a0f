# A model of the access explorer's pure logic

These Dafny modules model the parts of the access explorer that decide what a reader is told: the
drawing of an explanation, the recently-viewed list, table order, UNC paths, paging, the grouping of
changes, header forwarding, and, in the access engine, the Windows access check over a DACL, the
crossing of the two layers and the verdict drawn from it. Each module follows one source file or one
function of it.

| module | what it models |
|---|---|
| `ExplanationGraph`, `Relaxation`, `Layout`, `LayoutFacts`, `SubjectRoutes`, `Drawing` | the layered drawing of an explanation graph: depths, columns, rows, rectangles, edges |
| `StructureTable`, `Cautions` | the same graph as a table, and the ids of the notes beside it |
| `Recent`, `RecentFacts`, `RecentReads`, `RecentRuns`, `RecentHistory` | the recently-viewed list: a class over one storage cell, what each read may return, its safety over runs, and its refinement of an unbounded history |
| `TableSort` | `sortRows` and its comparator |
| `UncPaths` | the UNC parser, the parent function and the breadcrumb |
| `Paging` | cursor trails in the query string and the links between pages |
| `ChangeGroups` | the two halves of one ACL edit brought together on a page of changes |
| `Headers` | the headers the gate forwards, section 7.6.1 of RFC 9110 |
| `AccessConditions`, `AccessToken`, `AclWalk`, `AclFacts`, `AclRights`, `Verdict`, `Resolution` | findings and their direction, the token, the DACL walk, what the walk decides, the verdict |
| `Options`, `Seqs`, `Sorting`, `Text` | shared functions: filters, stable sort, splitting, trimming, decimal numerals |

Where the source changes things step by step the model is a method with the source's loops, its early
exits and its local maps and sets. Every such method is proved equal to a function of its inputs (or
of the old state), and what the source promises is then proved about that function.
Beside those results, each operation is characterised in the terms of its callers, in names and numbers
and without the model's own helper functions: `Drawing` for the picture, `RecentReads` for the stored
list, `AclRights` for the access check, `Resolution` for the crossing and the verdict, and the last
section of the other modules.

## Where the code and its documentation differ

The model follows the code. Ten promises hold only under a condition. For each the condition is
proved exact, both ways, and a lemma gives an input on which the promise fails.

* `frontend/lib/explanation.ts:589` promises that no edge points backwards. Every drawn edge runs
  forward if and only if the membership edges hold no cycle (`LayoutFacts.ForwardIffAcyclic`); two
  groups that are members of each other have one drawn backwards (`SubjectRoutes.CyclePointsBackwards`).
* `frontend/lib/explanation.ts:587` says that a depth is the longest route from the subject. A trustee
  starts at depth one whether or not a route leads to it, and a cycle has no longest route, so with one
  principal this holds of all trustees if and only if membership has no cycle and each trustee is shown
  to have a member (`SubjectRoutes.DepthIsLongestRouteIff`); a group without one has a depth and no
  route (`SubjectRoutes.UnreachedGroupHasADepth`). What the depth is without that condition is
  `Relaxation.DepthIsLongestWalk`.
* `frontend/lib/sort.ts:5-12` promises blanks last, the asked-for direction and ties in input order. In a
  text column that mixes numbers with words this holds if and only if no word contradicts, as text, the
  order of two numbers (`TableSort.SortRowsOrdersIff`, `TableSort.MixedColumnCycles`).
* `frontend/components/Explanation.tsx:161` and `backend/app/access_engine/causality.py:278` say that
  removing a superseded entry changes nothing. On a DACL that is walked to its end, it leaves the rights
  alone if and only if the entry is not the one that keeps the owner's implicit rights back while the
  DACL does not grant all of them (`AclFacts.SupersededIsRemovableIff`): a Deny for OWNER RIGHTS can be
  superseded and still withhold WRITE_DAC (`AclFacts.OwnerRightsDenyHoldsBack`). Past 4096 entries a
  deletion also pulls one more entry in (`AclFacts.TruncatedRemovalIff`, `AclFacts.CutHoldsBack`).
* `backend/app/access_engine/evaluation.py:22-26` calls the canonical model exact for a DACL in the order
  Windows maintains, and `frontend/components/Explanation.tsx:153` says of an answer the order changed
  that the ACL is not in canonical order. Where no order violation is reported, walked and canonical
  masks agree if and only if no inherited Deny names a right that is first named by an Allow
  (`AclFacts.CanonicalOrderAgreesIff`); the change then goes unreported exactly when such a right is not
  given by ownership anyway (`AclFacts.OrderDependentUnreportedIff`). An inherited Allow ahead of an
  inherited Deny is enough (`AclFacts.InheritedOrderUnreported`).
* `frontend/lib/recent.ts:69` returns the entries the account may still see, newest first and at most ten.
  What is read is always a first part of what the account viewed and nothing has erased or expired. It
  is the first ten as long as no call drops one of those ten while an entry behind them stays, and the
  first call that does leaves the list short
  (`RecentHistory.ReadIsFirstTen`, `RecentHistory.FirstCutFallsShort`,
  `RecentHistory.CutEntryDoesNotReturn`).
* The breadcrumb and the parent function agree if and only if no segment but the last is nothing but
  white space, because the parser trims what the parent function leaves at the end
  (`UncPaths.BreadcrumbClimbsIff`, `UncPaths.BlankSegmentIsSkipped`).
* Caution ids are React keys. They are distinct if and only if no condition is spelled like the
  numbered repeat of another, as `a-2` is beside two `a` (`Cautions.CautionIdsDistinctIff`,
  `Cautions.HyphenatedIdsCollide`). No condition of the engine holds a hyphen, so its findings are safe.
* The repository's own `README.md:83` gives certainty two directions. The fold has a third cause:
  `INDETERMINATE_RIGHTS` is in neither direction's set and still forbids a conclusive negative
  (`Verdict.ConclusiveNegativeIff`, `AccessConditions.IndeterminateAloneIsUncertain`).
* `backend/app/access_engine/verdict.py:64` and `frontend/lib/explanation.ts:107` say that `denied`
  means a Deny withheld what an Allow would have given. The code answers `denied` whenever an
  evaluated Deny took a right that was not yet granted, so a lone Deny is enough
  (`Verdict.LoneDenyIsDenied`). For every `denied` answer, deleting the Denies gives access if and
  only if the two layers offer some right in common (`Verdict.DeniedWithheldIff`).

## Assumptions

Node ids and edge ids are unique where a lemma says so (`UniqueIds`, `UniqueNodeIds`); the placement
itself is modelled for any ids, a repeated one overwriting its entry in the map as it does in the
source. A graph is `WellKinded` when membership edges run from a principal or trustee node to a
trustee node, trustee edges end at an entry node, grant and deny edges run from an entry to a resource
or share, and ownership edges run from a principal or trustee node to a resource or share. `rawHeaders`
alternates names and values. The collator of a table is a total preorder. The names in a query object
are unique, as object keys are. The values of a `Storage` object's `faults` say which of its three calls throw.

## Model

| member | source | states |
|---|---|---|
| Relaxation.RelaxPass | frontend/lib/explanation.ts:612-622 | one pass over the edges in id order equals `Pass`, and `moved` is true exactly when some depth changed |
| Relaxation.ComputeDepths | frontend/lib/explanation.ts:603-625 | the loops, early exit included, end with the depths that the full one-pass-per-node cap gives |
| Relaxation.DepthsAreWalks | frontend/lib/explanation.ts:609-625 | on any graph, cyclic or not, no depth ever falls, no node appears or vanishes, and each depth is witnessed by a real membership walk from some node's initial depth |
| Relaxation.DepthsAreBounded | frontend/lib/explanation.ts:589-592 | on any graph every depth is at most one plus passes times edges, so a cycle cannot push a column away without limit |
| Relaxation.SettlesIffAcyclic | frontend/lib/explanation.ts:609-625 | the capped loop ends at a fixpoint if and only if the membership edges between nodes hold no cycle and no self-loop |
| Relaxation.DepthIsLongestWalk | frontend/lib/explanation.ts:603-625 | without a cycle each depth is attained by a membership walk from some node's initial depth, and no walk from any node that ends there comes to more |
| SubjectRoutes.DepthIsLongestRouteIff | frontend/lib/explanation.ts:587-592 | on a well-kinded graph with one principal, every trustee's depth is the length of its longest membership walk from that subject if and only if membership has no cycle and every trustee is shown to have a member |
| SubjectRoutes.UnreachedGroupHasADepth | frontend/lib/explanation.ts:603-606 | a graph of a subject and one group without a member: the group has a depth of at least one and no walk from the subject |
| Relaxation.AcyclicEdgeRises | frontend/lib/explanation.ts:587-589 | without a cycle every membership edge ends at least one deeper than it starts |
| Relaxation.DepthsForgetOrder | frontend/lib/explanation.ts:608-625 | the depths do not depend on the order the response lists nodes and edges in, with or without cycles |
| Layout.FindDeepestTrustee | frontend/lib/explanation.ts:627-634 | the loop finds the depth of the deepest trustee node, taking one where a depth is missing |
| Layout.FillColumns | frontend/lib/explanation.ts:652-661 | the buckets hold, for each column, exactly its nodes in input order, and the keys come in order of first use |
| Layout.PlaceAll | frontend/lib/explanation.ts:663-686 | the map ends as the last place given to each id, and its keys are listed once each |
| Layout.LayoutGraph | frontend/lib/explanation.ts:598-726 | the whole method, buckets, placement, overwriting and routing included, returns `LayoutOf`, the function the geometry and order results below are about |
| Layout.OneRectanglePerId | frontend/lib/explanation.ts:663-713 | on every graph, repeated ids included, one rectangle for each node id and none besides |
| Layout.EveryNodePlacedOnceIff | frontend/lib/explanation.ts:663-713 | the rectangles are of exactly the graph's nodes, none lost and none drawn twice, if and only if no two nodes share an id |
| Layout.PlacedNodesSorted | frontend/lib/explanation.ts:663-713 | the placed nodes come in strictly increasing order of column and row, each where its column's order puts it |
| LayoutFacts.RowsOrdered | frontend/lib/explanation.ts:594-596 | within a column a higher row is earlier by label and then by id |
| LayoutFacts.RectanglesApart | frontend/lib/explanation.ts:663-686 | any two placed rectangles are strictly apart in x or in y |
| LayoutFacts.RectanglesInside | frontend/lib/explanation.ts:704-726 | every rectangle lies inside the reported width and height less the padding on all four sides |
| LayoutFacts.EdgesKept | frontend/lib/explanation.ts:688-702 | the drawn edges are exactly the edges with both ends placed, in input order and with multiplicity |
| LayoutFacts.LayoutForgetsOrder | frontend/lib/explanation.ts:594-596 | the same facts in any order give the same placed nodes, columns, width, height and set of drawn edges, cycles included |
| LayoutFacts.DrawnEdge | frontend/lib/explanation.ts:688-702 | an edge between two nodes of the graph is drawn, and points right exactly when its column number grows |
| LayoutFacts.AcyclicEdgeForward | frontend/lib/explanation.ts:587-589 | on an acyclic well-kinded graph every edge of all kinds between two nodes ends in a later column |
| LayoutFacts.ForwardIffAcyclic | frontend/lib/explanation.ts:587-589 | on a well-kinded graph no drawn edge points backwards if and only if membership is acyclic |
| SubjectRoutes.CyclePointsBackwards | frontend/lib/explanation.ts:587-592 | two groups that are members of each other: well-kinded, and some edge is drawn backwards |
| LayoutFacts.TrusteeBelow | frontend/lib/explanation.ts:636-650 | on an acyclic well-kinded graph a trustee beyond column one has a trustee in the column before it |
| LayoutFacts.NoEmptyTrusteeColumn | frontend/lib/explanation.ts:627-661 | on an acyclic well-kinded graph columns one to the deepest trustee are all occupied |
| Drawing.BoxesOnGrid | frontend/lib/explanation.ts:575-581 | every box is 188 by 38, 264 from column to column and 56 from row to row, 16 from the edge |
| Drawing.LineJoinsBoxes | frontend/lib/explanation.ts:688-702 | every line leaves the middle of the right side of its source's box and enters the middle of the left side of its target's box |
| Drawing.RowsContiguous | frontend/lib/explanation.ts:668-686 | above a box that is not in the first row stands a box of the same column |
| Drawing.SizeIsTight | frontend/lib/explanation.ts:704-712 | some box touches the margin on the right and some box the one below, so the picture is no larger than it needs to be |
| Drawing.EmptySize | frontend/lib/explanation.ts:704-712 | an empty graph has no boxes, lines or captions and room for one box |
| Drawing.SubjectAndTrusteeColumns | frontend/lib/explanation.ts:636-650 | the subject is in the first column, a group or assumed trustee in the column of its depth |
| Drawing.EntryAndObjectColumns | frontend/lib/explanation.ts:627-650 | entries are right of every trustee, and objects a further column right |
| Drawing.EntryColumnIsFirstFree | frontend/lib/explanation.ts:627-650 | and no further right than the deepest trustee makes necessary |
| Drawing.CaptionsOverColumns | frontend/lib/explanation.ts:713-725 | the captions stand over exactly the occupied columns, left to right |
| Drawing.CaptionFits | frontend/lib/explanation.ts:713-725 | a caption names the kind of what its column holds, and of groups how many hops away they are |
| Drawing.LabelRules | frontend/lib/explanation.ts:455-471 | an entry is labelled by layer and position; anything else by its given name, or by SID or key |
| Drawing.AssumedLabelRules | frontend/lib/explanation.ts:455-490 | an assumed trustee without a name goes by the well-known name of its SID, or by its key |
| Drawing.SelfLoopDepth | frontend/lib/explanation.ts:609-625 | the cap exactly: on a self-loop the depth ends at one more than the number of nodes |
| Drawing.RelaxedInIdOrder | frontend/lib/explanation.ts:608-608 | the edges relaxed are the membership edges, each once, in strictly increasing order of id |
| StructureTable.IndexPaths | frontend/lib/explanation.ts:750-762 | the map filled path by path answers, for every edge, what a naive scan of all paths gives |
| StructureTable.StructureRows | frontend/lib/explanation.ts:750-777 | one row per graph edge in order, with the labels of its ends and the path ids a naive scan finds |
| StructureTable.ScanInvertsPaths | frontend/lib/explanation.ts:732-762 | an edge's row lists a path as often as that path travels the edge, and lists it at all exactly when some path of that id does |
| StructureTable.ScanFollowsPathOrder | frontend/lib/explanation.ts:750-762 | path ids come in path order |
| StructureTable.RowsFollowEdges | frontend/lib/explanation.ts:750-777 | the k-th row says what the k-th edge says, and names its ends by the labels of their nodes or, for an end outside the graph, by its id |
| StructureTable.RowsInvertPaths | frontend/lib/explanation.ts:732-777 | a row lists a path as often as that path travels the row's edge, in path order |
| StructureTable.DrawnEdgeHasRow | frontend/lib/explanation.ts:732-738 | every drawn edge has its row, same id and kind, whose two labels are those of the two rectangles the line joins |
| Cautions.NumberFindings | frontend/lib/explanation.ts:1049-1061 | the counting map gives each warning its condition and, from the second on, which occurrence it is |
| Cautions.CautionIds | frontend/lib/explanation.ts:954-1064 | the branches produce the ids of `Ids` in order, fixed notes first |
| Cautions.FindingIdsDistinctIff | frontend/lib/explanation.ts:1049-1061 | the finding ids are pairwise distinct if and only if no condition is spelled like another's numbered repeat |
| Cautions.CautionIdsDistinctIff | frontend/lib/explanation.ts:954-1064 | the same for the whole list, fixed notes included |
| Cautions.HyphenFreeIdsDistinct | frontend/lib/explanation.ts:1049-1061 | conditions without a hyphen, however often repeated, give distinct ids |
| Cautions.EngineFindingIdsDistinct | backend/app/access_engine/conditions.py:37-205 | every list of findings the engine can send gives distinct ids |
| Cautions.HyphenatedIdsCollide | frontend/lib/explanation.ts:1049-1061 | a list of three names on which two finding ids are the same |
| Cautions.NotesFit | frontend/lib/explanation.ts:954-1048 | each fixed note is there exactly when its fact about the answer is |
| Cautions.FindingIdReads | frontend/lib/explanation.ts:1049-1061 | the id of a warning is its condition, followed for a repeat by which occurrence it is |
| Text.DecimalReads | frontend/lib/explanation.ts:1056-1056 | a numeral reads back as its number and has no leading zero |
| Recent.TidyEntries | frontend/lib/recent.ts:222-233 | the pass with its set of seen ids keeps the first of each object in newest-first order, at most ten |
| Recent.Storage.Clear | frontend/lib/recent.ts:126-132 | the cell is emptied unless storage refuses |
| Recent.Storage.Save | frontend/lib/recent.ts:191-201 | only an account tag in form may write, never more than ten entries, and a throw leaves the cell as it was |
| Recent.Storage.Load | frontend/lib/recent.ts:168-190 | unparsable or foreign content is wiped and reads as empty, own content is tidied, and rewritten exactly when tidying dropped something |
| Recent.Storage.ReadRecent | frontend/lib/recent.ts:69-72 | reads what a load returns and leaves what a load leaves |
| Recent.Storage.ReadRecentFor | frontend/lib/recent.ts:78-91 | returns the entries whose capability is held and stores only those when any was dropped |
| Recent.Storage.RecordRecent | frontend/lib/recent.ts:94-108 | the new cell holds the view in front of the other objects, or is untouched when the key or label is unusable |
| Recent.Storage.ForgetRecent | frontend/lib/recent.ts:111-123 | the new cell lacks exactly that object |
| RecentFacts.EncodeDecodes | frontend/lib/recent.ts:235-254 | an encoded entry is accepted exactly when its shape and age are, and decodes to itself |
| RecentFacts.EncodeParses | frontend/lib/recent.ts:191-219 | what is saved parses back to the same owner and entries |
| RecentFacts.IdInjective | frontend/lib/recent.ts:222-233 | two objects never share the key under which duplicates are dropped |
| RecentFacts.TidySound | frontend/lib/recent.ts:222-233 | whatever was stored, the tidied list is valid, unexpired, newest first, one per object, at most ten, and all of it was stored |
| RecentFacts.TidyKeepsNewest | frontend/lib/recent.ts:222-233 | a valid stored entry is dropped only for one of the same object at least as new, or for ten at least as new |
| RecentFacts.TidyIdempotent | frontend/lib/recent.ts:222-233 | tidying twice at one instant is tidying once |
| RecentFacts.TidyOfWellFormed | frontend/lib/recent.ts:222-233 | tidying a well-formed list later only drops what has expired |
| RecentFacts.ReadIsSound | frontend/lib/recent.ts:168-190 | from any stored content, a returned list is well formed and unexpired, and comes only from a value tagged with that very owner |
| RecentReads.AcceptedIff | frontend/lib/recent.ts:235-254 | a stored value is accepted as an entry exactly when it names one of the four kinds, a key of 1 to 1024 characters, a label of at most 200 that is not all white space, and a time within the last eight hours |
| RecentReads.ParsedIff | frontend/lib/recent.ts:204-219 | stored text is read exactly when it is version 1 of the shape with an account tag of 64 hex digits and a list |
| RecentReads.ReadShows | frontend/lib/recent.ts:69-72 | a read shows at most ten entries, newest first, none over eight hours old, no object twice, each stored under this account's own tag |
| RecentReads.ReadLeavesOutNothing | frontend/lib/recent.ts:222-233 | a stored entry in good order is shown, unless one of the same object or ten others were viewed no earlier |
| RecentReads.TiesKeepOrder | frontend/lib/recent.ts:222-233 | entries of one instant keep the order they were stored in |
| RecentReads.ReadForIff | frontend/lib/recent.ts:78-91 | under capabilities a read returns exactly the identities if identities may be read and the servers, shares and directories if resources may; it says whether there were others and stores the list without them unless storage refuses |
| RecentReads.RecordedLabelReads | frontend/lib/recent.ts:94-108 | what is recorded is the name without the white space around it, cut at 200 characters, under a key of 1 to 1024 |
| Text.SpaceIff | frontend/lib/resources.ts:54-64 | white space is what trimming removes, by code point |
| Text.TrimSplits | frontend/lib/recent.ts:94-108 | trimming takes white space off both ends, and all of it |
| RecentRuns.StepOrigin | frontend/lib/recent.ts:69-132 | any call, by any account, on any content and with any storage fault: an entry standing afterwards was recorded by it for that account, or stood before and was not erased |
| RecentRuns.StepWrites | frontend/lib/recent.ts:69-132 | any such call empties the cell, leaves it alone or writes a well-formed list of one account |
| RecentRuns.RunAccounted | frontend/lib/recent.ts:69-132 | after any run from any content the cell is empty, as found, or a well-formed list each entry of which its account recorded or had at the start, with nothing since erasing it |
| RecentRuns.NothingLeaks | frontend/lib/recent.ts:69-132 | over any interleaving of accounts, calls and storage faults from any content, what an account reads is current, was stored by it or stood at the start under its tag, and was not forgotten, cleared, overwritten, expired or lost to a capability since |
| RecentHistory.ReadIsPrefix | frontend/lib/recent.ts:69-132 | after any run of calls by any accounts and with any storage faults, what an account reads is a first part of the unexpired part of its unbounded move-to-front history, at most ten long |
| RecentHistory.ReadIsFirstTen | frontend/lib/recent.ts:69-132 | it is exactly the first ten of it, unless some call dropped one of the ten while an entry behind them stayed |
| RecentHistory.FirstCutFallsShort | frontend/lib/recent.ts:78-123 | the condition is exact: after a run none of whose earlier calls did so, a read at the time of its last call gives the first ten if and only if that call does not drop one of them while an entry behind them stays |
| RecentHistory.ReadWithinAge | frontend/lib/recent.ts:69-132 | over a run no longer than the maximum age, it is the first ten of the history, plainly |
| RecentHistory.CutEntryDoesNotReturn | frontend/lib/recent.ts:94-123 | more than ten shares viewed and the newest forgotten: the list read is not the first ten of what was viewed and not forgotten |
| TableSort.NumberColumnsHomogeneous | frontend/lib/sort.ts:22-46 | number and date columns never mix numbers with words |
| TableSort.HomogeneousHasNoCircle | frontend/lib/sort.ts:49-54 | a column of numbers only or words only, blanks aside, has no word that contradicts the order of two numbers |
| TableSort.ComparatorIsTotalIff | frontend/lib/sort.ts:49-73 | the comparator is a strict total order on the indexed rows if and only if no word of the column contradicts the order of two of its numbers |
| TableSort.SortRowsOrdersIff | frontend/lib/sort.ts:57-73 | the result is a permutation of the rows, and it is ordered, blanks last in both directions and ties in input order, if and only if no word contradicts the order of two numbers |
| TableSort.SortedRows | frontend/lib/sort.ts:66-73 | what is returned are the input rows at the indexes of the sorted items, as many as came in |
| TableSort.SortRowsIsUnique | frontend/lib/sort.ts:57-73 | an arrangement of the rows that is in order is the one returned, whatever the column holds, so the answer does not depend on the platform's sort |
| TableSort.DirectionSwapsOnlyDistinctValues | frontend/lib/sort.ts:57-73 | two rows change places between ascending and descending exactly when neither is blank and their values differ |
| TableSort.MixedColumnCycles | frontend/lib/sort.ts:49-54 | a mixed text column of three rows no arrangement of which is in order |
| TableSort.ComparedAs | frontend/lib/sort.ts:22-36 | numbers are themselves in any column, false comes before true, and what is missing, not a number, blank or a dash is blank |
| TableSort.WordsComparedAs | frontend/lib/sort.ts:33-45 | words are a number without their commas, a date or text as the column says, and blank where the parser refuses them |
| TableSort.CommasGo | frontend/lib/sort.ts:37-40 | every comma is left out and nothing else |
| TableSort.InOrderReads | frontend/lib/sort.ts:49-73 | in order means smaller numbers first when ascending and larger first when descending, text as the collator has it, equal values by index |
| Text.StringLessIff | frontend/lib/explanation.ts:608-608 | strings are ordered where they first differ |
| Sorting.SortStable | frontend/lib/sort.ts:57-73 | what the order does not tell apart keeps the order it came in |
| UncPaths.ResourceBreadcrumb | frontend/lib/resources.ts:104-137 | the loop with its growing path gives each segment the path down to it, and no link to the last |
| UncPaths.ParseRenderIff | frontend/lib/resources.ts:54-64 | parsing a rendered path gives the same parts if and only if all components are non-empty and free of both separators and the last does not end in white space |
| UncPaths.ParseIsClean | frontend/lib/resources.ts:54-64 | whatever the text, every component returned is non-empty and free of separators, and rendering them is no longer than the trimmed text |
| UncPaths.ParsedIff | frontend/lib/resources.ts:54-64 | a path is read exactly when, trimmed, it begins with two separators of either kind and what follows reads as at least two components with any separators between; they are the server, the share and the segments |
| UncPaths.ParentShrinks | frontend/lib/resources.ts:79-88 | for every path, the parent has strictly fewer segments or no parse, and loses exactly the last segment if and only if the one before it does not end in white space |
| UncPaths.ClimbIsAncestryIff | frontend/lib/resources.ts:79-88 | climbing by parents visits every prefix down to the share root if and only if no segment is all white space |
| UncPaths.BreadcrumbShape | frontend/lib/resources.ts:104-137 | a path with n segments has 3 + n crumbs and only the last is not a link |
| UncPaths.RootCrumbsRead | frontend/lib/resources.ts:110-123 | the first three crumbs name and open the server, the share and the directory the share publishes |
| UncPaths.CrumbsRead | frontend/lib/resources.ts:125-135 | the others name the segments in order and open the path down to each |
| UncPaths.NoTrail | frontend/lib/resources.ts:104-108 | what is not a path has no trail, no root and no parent |
| UncPaths.BreadcrumbClimbsIff | frontend/lib/resources.ts:79-137 | the directory links read backwards are the iterated parents if and only if no segment but the last is all white space |
| UncPaths.BlankSegmentIsSkipped | frontend/lib/resources.ts:79-137 | a path with a blank directory inside, where the breadcrumb links and the iterated parents differ |
| UncPaths.ClimbReachesRoot | frontend/lib/resources.ts:67-88 | then climbing takes one step per segment and ends at the share root |
| Paging.HrefWith | frontend/lib/paging.ts:91-109 | the appended pairs are those of `Query`: nothing for absent or empty values, one per non-empty list item, in order |
| Paging.DecodeEncodeIff | frontend/lib/paging.ts:45-62 | decoding an encoded trail gives it back if and only if every cursor is non-empty base64url |
| Paging.EncodeDecode | frontend/lib/paging.ts:45-62 | an accepted parameter encodes to itself, a rejected one carries no position, and a parameter is rejected exactly when it is repeated or some part is no cursor |
| Paging.SpreadReadsBack | frontend/lib/paging.ts:131-143 | whatever other parameters the page carries, the trail parameter of a link reads back as it was written |
| Paging.CursorIff | frontend/lib/paging.ts:28-28 | a cursor is non-empty text over the 64 letters, digits, hyphen and underscore |
| Paging.EncodedTrail | frontend/lib/paging.ts:60-62 | a trail is its cursors with a tilde between them, and no parameter when empty |
| Paging.QueryReads | frontend/lib/paging.ts:91-109 | each parameter of a query object reads back from the URL as what it means |
| Paging.SpreadKeeps | frontend/lib/paging.ts:131-143 | spreading one parameter leaves what every other reads as |
| Paging.LinksKeepRest | frontend/lib/paging.ts:131-143 | each of the three links keeps the page's address and every other parameter |
| Paging.LinksNavigate | frontend/lib/paging.ts:131-143 | following a link from its URL: next appends the response's cursor and asks for it, previous drops the last, first drops all, each present exactly when it should be |
| Paging.ForwardTrail | frontend/lib/paging.ts:131-143 | n steps along next extend the trail by those n cursors, and the page number is one plus its length |
| Paging.BackTrail | frontend/lib/paging.ts:131-143 | n steps along previous drop the last n cursors and change nothing else |
| Paging.ForwardThenBack | frontend/lib/paging.ts:131-143 | n steps forward and n back return to the same trail and page number |
| ChangeGroups.GroupChanges | frontend/lib/changes.ts:225-247 | the one pass with its map and its groups pushed onto in place shows the declarative grouping |
| ChangeGroups.OpenGroup | frontend/lib/changes.ts:229-243 | a change that leads opens one fresh group at the end and leaves the others as they are |
| ChangeGroups.JoinGroup | frontend/lib/changes.ts:229-243 | a change of a known edit is pushed onto that edit's group in place |
| ChangeGroups.PositionsGroup | frontend/lib/changes.ts:211-247 | the groups partition the positions, two share a group exactly when both resolve to one edit, none is empty, each is in input order, and they come in the order of their first change |
| ChangeGroups.GroupingIsUnique | frontend/lib/changes.ts:211-247 | no other grouping keeps those promises |
| ChangeGroups.GroupingFollowsPositions | frontend/lib/changes.ts:202-247 | each returned group holds the changes at its positions, all resolving to the edit it shows |
| ChangeGroups.PositionsApart | frontend/lib/changes.ts:211-247 | no position is in two groups |
| ChangeGroups.GroupingPermutes | frontend/lib/changes.ts:211-247 | the groups, flattened, are a permutation of the page: no change is lost and none is shown twice |
| ChangeGroups.EditForIff | frontend/lib/changes.ts:202-210 | a change resolves to the first edit with the index it carries, and to none exactly when it carries none or no edit has it |
| ChangeGroups.SameGroupIff | frontend/lib/changes.ts:225-247 | two changes are in one group exactly when they carry one index that some edit on the page has |
| ChangeGroups.ShownEditIff | frontend/lib/changes.ts:225-247 | a group shows the first edit with its changes' index; one without an edit is a single change that no edit belongs to |
| Headers.ForwardableHeaders | frontend/render/gate.ts:74-90 | the two index loops give `Forwardable` |
| Headers.ExcludedIff | frontend/render/gate.ts:70-83 | a name is excluded exactly when it is hop-by-hop, in the drop set, or named by a Connection header wherever that stands |
| Headers.HopByHopNames | frontend/render/gate.ts:49-60 | the nine names that are never forwarded |
| Headers.LowerReads | frontend/render/gate.ts:74-86 | names are compared with each capital as its small letter |
| Headers.PairsRead | frontend/render/gate.ts:74-90 | the k-th pair is the k-th name and the value behind it |
| Headers.ForwardsExactly | frontend/render/gate.ts:70-90 | what is forwarded is the in-order subsequence of the pairs that may be forwarded, and no other |
| Headers.ForwardingIsIdempotent | frontend/render/gate.ts:74-90 | forwarding what was forwarded, with the same drop set, changes nothing |
| AccessConditions.UnderstatesIff | backend/app/access_engine/resolver.py:403-423 | an answer may hide a grant exactly when a finding understates or a mask asked for the maximum |
| AccessConditions.IndeterminateAloneIsUncertain | backend/app/access_engine/resolver.py:403-423 | one finding that is in neither direction's set and still makes the answer uncertain |
| AccessConditions.WireNamesHyphenFree | backend/app/access_engine/conditions.py:37-205 | no condition's name holds a hyphen |
| AccessToken.TokenKeysDistinct | backend/app/access_engine/subjects.py:446-553 | a token carries no key twice and the subject is its first entry |
| AccessToken.TokenHolds | backend/app/access_engine/subjects.py:446-553 | the token is exactly the subject, then the first group of each new key unchanged and in order unless the session does not present them, then the SIDs the assumption and the path call for whose keys are new |
| AccessToken.TokenKeysIff | backend/app/access_engine/subjects.py:446-553 | a key is in the token exactly when it is the subject's, a presented group's or one of those SIDs |
| AccessToken.TokenFindingsIff | backend/app/access_engine/subjects.py:322-530 | each finding of a token has its one cause |
| AccessToken.SystemIsNotPresented | backend/app/access_engine/subjects.py:355-443 | over a share no entry that names SYSTEM's own key ever matches |
| AccessToken.SystemTokenUnderstates | backend/app/access_engine/subjects.py:322-352 | every token built for SYSTEM carries a finding that may hide a grant |
| AclWalk.Walk.Apply | backend/app/access_engine/evaluation.py:644-731 | folding one entry into the mutable accumulator: masks, evidence and findings become exactly those of `Step` |
| AclWalk.Walk.ApplyMatched | backend/app/access_engine/evaluation.py:686-731 | an entry that takes part settles each of its rights that nothing before it settled the other way, and is credited or superseded accordingly |
| AclWalk.CanonicalOrderViolations | backend/app/access_engine/evaluation.py:272-317 | the violations reported are exactly the explicit entries behind the first inherited entry and the Denies behind the first explicit Allow, each once and by position, and there is one exactly when the order is violated |
| AclWalk.EvaluateAcl | backend/app/access_engine/evaluation.py:456-580 | the pass over the considered entries, with its refusals and closing findings, equals `Evaluate` |
| AclFacts.FirstMatchDecides | backend/app/access_engine/evaluation.py:644-731 | right by right, granted exactly when the first entry that applies and names the right is an Allow, denied exactly when it is a Deny |
| AclRights.AsksIff | backend/app/access_engine/rights.py:305-319 | a mask asks for its own bits below the generic four and, in bit numbers, for what each of those stands for |
| AclRights.TakesPartIff | backend/app/access_engine/evaluation.py:644-752 | an entry takes part exactly when it is not for children only, does not stand for a creator, and the token carries its trustee, or the owner for OWNER RIGHTS |
| AclRights.GrantedIff | backend/app/access_engine/evaluation.py:456-580 | an evaluation grants a right exactly when the first of the first 4096 entries that takes part and asks for it allows it, or the owner is carried, nothing replaces its rights and it is reading or writing the descriptor; a NULL DACL grants full file access; entries of another layer are refused |
| AclRights.TakenIff | backend/app/access_engine/evaluation.py:644-731 | a credited Deny took a right exactly when the first walked entry that asks for it denies it |
| AclRights.CanonicalIff | backend/app/access_engine/evaluation.py:505-520 | the canonical answer is every right some Allow asks for and no Deny does, and what ownership gives |
| AclRights.EvidenceIsFiled | backend/app/access_engine/evaluation.py:644-731 | every entry that takes part has a record, true in position, trustee, what it asks and what it settled, in the one list it belongs to |
| AclRights.FindingsIff | backend/app/access_engine/evaluation.py:456-580 | each finding about a present DACL has its one cause |
| AclRights.NullFindings | backend/app/access_engine/evaluation.py:583-607 | a NULL DACL is reported as one, credits no entry and has no canonical answer |
| AclFacts.CanonicalGap | backend/app/access_engine/evaluation.py:456-580 | the canonical answer never exceeds the walked one, and falls short by exactly the rights an Allow won by standing ahead of a Deny |
| AclFacts.OrderDependentIff | backend/app/access_engine/evaluation.py:456-580 | the finding that the order changed the answer is raised exactly when the walked and canonical answers differ, and exactly when an Allow beat a Deny to some right that ownership does not give anyway |
| AclFacts.OnlyInheritedDeniesLose | backend/app/access_engine/evaluation.py:272-282 | where no order violation is reported, the only Deny an Allow can have beaten is an inherited one |
| AclFacts.CanonicalOrderAgreesIff | backend/app/access_engine/evaluation.py:22-26 | with no order violation reported, walked and canonical masks agree if and only if no applying inherited Deny names a right that is first named by an Allow |
| AclFacts.OrderDependentUnreportedIff | backend/app/access_engine/evaluation.py:537-580 | an answer the order changed comes without the finding about the order if and only if the order is not violated and an inherited Deny lost a right that ownership does not give |
| AclFacts.InheritedOrderUnreported | frontend/components/Explanation.tsx:152-154 | an inherited Allow ahead of an inherited Deny: the order changed the answer and the ACL is not reported as out of order |
| AclFacts.EvidenceAccounts | backend/app/access_engine/evaluation.py:644-731 | in the walk, credited Allows gave exactly the granted rights, credited Denies took exactly the denied ones, no right is both, a superseded entry took nothing |
| AclFacts.EvaluationAccounts | backend/app/access_engine/evaluation.py:364-391 | the rights of an evaluation are exactly what its credited Allows gave and what ownership adds, and a right a credited Deny took comes back only through ownership |
| AclFacts.SupersededKeepsMasks | backend/app/access_engine/evaluation.py:644-731 | with ownership held fixed, deleting a superseded entry changes no granted and no denied right of the walk |
| AclFacts.SupersededIsRemovableIff | backend/app/access_engine/causality.py:276-279 | deleting a superseded entry of a DACL walked to its end leaves the evaluated rights alone if and only if it is not the only entry that names OWNER RIGHTS while the token holds the owner and some implicit owner right is not first named by an Allow |
| AclFacts.TruncatedRemovalIff | backend/app/access_engine/causality.py:276-279 | past the cut, the rights stay if and only if the entry pulled in and ownership give nothing new, and what ownership stops giving is given otherwise |
| AclFacts.OwnerRightsDenyHoldsBack | frontend/components/Explanation.tsx:161 | a superseded Deny whose removal lets the owner write the descriptor |
| AclFacts.CutHoldsBack | frontend/components/Explanation.tsx:161 | a superseded entry of an overlong DACL whose removal grants a right |
| Verdict.ConclusiveNegativeIff | backend/app/access_engine/verdict.py:242-281 | a conclusive negative is given exactly when no right survives, no finding understates and no mask asked for the maximum, and it is `denied` exactly when a layer credits a Deny |
| Resolution.OutcomeIff | backend/app/access_engine/verdict.py:242-281 | the verdict is granted, indeterminate, denied or no grant, each exactly on its own condition |
| Resolution.CertaintyIff | backend/app/access_engine/verdict.py:276-300 | its certainty is the direction of the findings, and its denials are those of the file system and then of the share |
| Resolution.Directions | backend/app/access_engine/conditions.py:340-400 | which conditions can overstate an answer, which can understate it, and which do both |
| Resolution.ResolvesIff | backend/app/access_engine/resolver.py:294-353 | a share ACL is taken for a remote path and for no other, and each entry must be of its own layer |
| Resolution.SurvivesIff | backend/app/access_engine/resolver.py:294-400 | a right survives exactly when the file system gives it and a share that was read gives it too |
| Resolution.ResolvedFindingsIff | backend/app/access_engine/resolver.py:294-485 | each finding of a resolved access has its one cause |
| Verdict.ReasonMatchesLayers | backend/app/access_engine/verdict.py:174-196 | for every access: the sentence about SYSTEM is given exactly where its mapping leaves the outcome open, and the others exactly for the layers they describe |
| Verdict.MoreFindingsNeverConclude | backend/app/access_engine/verdict.py:242-281 | further findings never turn an unknown into an answer, nor a grant into anything else |
| Verdict.SystemIsNeverAConclusiveNegative | backend/app/access_engine/verdict.py:107-157 | no input and no path ever gives a conclusive negative about SYSTEM, and its reason names the unsettled mapping unless access is granted to a confirmed one |
| Verdict.TokenFindingsKept | backend/app/access_engine/resolver.py:294-450 | every finding of the token, the descriptor's origin, either evaluation and the caller reaches the result, and the empty-DACL note is lost only for a descriptor nobody read |
| Verdict.UnreadDaclIsNeverAConclusiveNegative | backend/app/access_engine/resolver.py:436-485 | a descriptor nobody read, or one walked only in part, never supports a conclusive negative |
| Verdict.RightsWithinBothLayers | backend/app/access_engine/rights.py:658-707 | no layer widens the other, and without a share reading the answer is only an upper bound |
| Verdict.DeniedWithheldIff | backend/app/access_engine/verdict.py:64-66 | for every `denied` answer on either path, deleting all Denies gives access if and only if both layers offer some right in common |
| Verdict.LoneDenyIsDenied | backend/app/access_engine/verdict.py:242-281 | a concrete `denied` answer with nothing withheld |

## Left out

- `layoutGraph` labels, edge notes and the wording of rows (`description`), notices, headlines and exports: presentation without an invariant.
- Strings are sequences of characters; length and order are by character, not by UTF-16 unit. `toLowerCase` is modelled for ASCII, which is all a header name may hold.
- `JSON.parse` and `JSON.stringify` are the datatype `Json`; their text form is left abstract. Numbers are reals or an overflow.
- URL encoding is abstract: a URL is its base and its list of pairs, a breadcrumb link is its page and its key.
- `Intl.Collator`, `Number()`, `Date.parse` and number printing are parameters of the sort; IEEE rounding is not modelled and NaN is blank, as in the source.
- TableSort.DirectionSwapsOnlyDistinctValues: needs a column with no circle in either direction; where a word contradicts two numbers in one direction, the result in that direction is not in order.
- RecentHistory.ReadIsFirstTen: starts from content that is not the account's own; a list already tagged with it, possibly tampered with, is covered by `ReadIsSound` and `NothingLeaks`.
- Headers.ForwardableHeaders: a list of odd length is not modelled, since Node always pairs names with values.
- The text of findings, the limiting layer, and the checks of dataclass constructors (`__post_init__`) other than the layer and path refusals.
- Access masks are sets of the 32 bits; their integer form, names and sensitivity categories are not modelled.
- Where membership and the collected facts come from: the graph traversal of memberships, the database, and what decides the completeness flags are parameters.
- The causality and investigation engines, the API, the React components, the gate's process supervision and relaying, the Worker and the logging filters.
