# Phosphorus Five: the lambda evaluator and the file authorizer, in Dafny

This project models two parts of Phosphorus Five.

**The lambda evaluator** runs a block of "lambda". A block is a node whose children are
statements, and it is run by dispatching each child node by name to an active-event handler.
The model covers:

- the statement loop (`ExecuteAll`): the optional `[offset]` start, skipping `_`, `.` and
  anonymous nodes, the fallback sibling recorded before each dispatch, and stopping on a
  `_return`, `_break` or `_continue` sentinel at the root;
- the two scoping disciplines. `[eval]` runs a deep copy of the block with copies of the
  arguments in front, and hands back only the nodes the run created plus the final value.
  `[eval-mutable]` appends copies of the arguments to the block and runs it in place;
- the scope entry (`Executor`). It runs the event node's own children, or every source its
  value resolves to, in order, with `isFirst` set only on the first.

The node tree is an arena (`NodeTree.Forest`): a map from node handles to name, value,
parent and children. Node identity is the handle. A `NodeTree.Tree` object holds the
arena, and its methods update it in place as the C# code updates `Node` objects.
Handlers are a supplied pure function `Dispatch` from a tree and a node to the tree the
handler leaves and, when it threw, its error message. A `fuel` bound stands for "the loop may not end".

Every method is proved equal to a specification function: `Eval.RunBlock`, `Blocks.CopyRun`,
`Blocks.MutableRun` and `Events.Event`. The lemmas state the source's rules about those
functions. The loop functions record a trace of visits, so the lemmas can say which node
each step was at, whether it was dispatched, what it recorded before dispatch and which
tree it left.

**The file authorizer** (`AuthorizationHelper`) decides whether the caller may read or
modify a file or folder. The model covers:

- the path sanity checks;
- the built-in shields: other users' folders, the database folder, `*.config` files and
  the authentication file;
- the access-list evaluation. The three `RemoveAll` filters, the sort by path (a `"*"`
  role before a named role on the same path) and the loop where the last decision wins.

`CheckAccessRights` is a method with the source's loop, proved equal to the function
`AccessRights`. The lemmas characterise `AccessRights` independently of the sort: the
decision comes from a deciding relevant access object that no other deciding relevant
object sorts after.

Behaviours of the code that the model keeps, and the lemmas that state them:

- **Deleting and inserting.** The loop records the next sibling before dispatch
  (`plugins/p5.lambda/Eval.cs:194`) and afterwards prefers the node's current next sibling
  (`Eval.cs:213`). A handler that detaches its own node therefore continues at the recorded
  sibling if that one still has a parent, and a sibling it inserted in its place is skipped
  by the loop (`Eval.DetachedFallsBack`).
- **Offset counting.** `[offset]` is compared with the count of all children, the `[offset]`
  node among them, and indexes those children (`Eval.cs:175-183`). A negative offset reaches
  the indexer and fails there (`Eval.NegativeOffsetFails`).
- **Sentinel stripping.** After a run only one leading `_return` child is detached
  (`Eval.cs:126-127` and `Eval.cs:156-157`).
- **Case of the username.** The own-folder test compares the lower-cased path with the
  username as given (`plugins/extras/p5.io.authorization/helpers/AuthorizationHelper.cs:242`).
  If `StartsWithEx` is the case-sensitive prefix test the model takes it to be, a user whose
  name has a capital letter is refused reads in their own folder
  (`Authorization.CapitalisedUsernameLockedOut`).
- **Modifying a folder.** `AuthorizeModifyFolder` checks the folder *read* rule
  (`AuthorizationHelper.cs:127`, `Authorization.ModifyFolderIsReadFolder`). The folder write
  rule is called by no authorizer, and it builds the "own folder" from the role
  (`AuthorizationHelper.cs:303-307`, `Authorization.WriteFolderUsesRole`).

Files:

- `wrappers.dfy`: `Option` and `Result`.
- `nodetree.dfy`: the node tree, its edits, snapshots and grafting.
- `eval.dfy`: the statement loop.
- `blocks.dfy`: the two block runners.
- `events.dfy`: `[eval]`, `[eval-mutable]` and the executor.
- `authorization.dfy`: the file authorizer.

## Model

| member | source | states |
|---|---|---|
| Eval.Start | plugins/p5.lambda/Eval.cs:168-188 | the first statement is a child of the block, or nothing when there is an `[offset]` or there are no children. It fails exactly when an `[offset]` child is present and its value is negative or above the number of children |
| Eval.RunBlock | plugins/p5.lambda/Eval.cs:163-215 | a run takes at most `fuel` steps, a run that visits nothing leaves the tree as it was, and a bad `[offset]` fails with its error before any step |
| Eval.ExecuteAll | plugins/p5.lambda/Eval.cs:163-215 | the loop method leaves exactly the tree and the outcome of the specification run `RunBlock`. SkipRule, SentinelRule, AdvanceRule and FinalTreeRule state what that run does |
| Eval.ExecuteFrom | plugins/p5.lambda/Eval.cs:190-214 | the `while (idxExe != null)` loop, from a given cursor, ends with the tree and outcome of `Loop` |
| Eval.StepFacts | plugins/p5.lambda/Eval.cs:193-213 | one step (StepAt) records the next sibling before dispatch and dispatches exactly the executable names. A skipped node leaves the tree alone. A dispatched node takes the tree its handler left. The step fails exactly when the handler threw, carrying its message. A halt without error happens exactly when a sentinel is the root's first child. Otherwise the cursor moves by NextCursor |
| Eval.DriveTrace | plugins/p5.lambda/Eval.cs:190-214 | a run is the sequence of its steps. Each step starts from the tree the previous one left, and each step except the last continues to the next node. The final tree is the one the last step left |
| Eval.SkipRule | plugins/p5.lambda/Eval.cs:196-203 | at every step the node is dispatched if and only if its current name does not start with `_` or `.` and is not empty. A skipped step changes nothing |
| Eval.SentinelRule | plugins/p5.lambda/Eval.cs:205-208 | no step except the last leaves a `_return`, `_break` or `_continue` sentinel at the root. The run is unwound if and only if the last step left one and no error occurred |
| Eval.AdvanceRule | plugins/p5.lambda/Eval.cs:190-214 | each step records its node's next sibling before dispatch. The next step is where NextCursor points after the dispatch (the current next sibling, otherwise the recorded sibling if it still has a parent). A normal end means NextCursor points nowhere |
| Eval.FinalTreeRule | plugins/p5.lambda/Eval.cs:199-203 | the final tree is the one the last step left. An error comes only from a dispatched handler that threw. It ends the loop at once, with that handler's message and the tree that handler left |
| Eval.OffsetAtEnd | plugins/p5.lambda/Eval.cs:174-176 | an `[offset]` equal to the number of children runs nothing and changes nothing |
| Eval.OffsetBeyondEnd | plugins/p5.lambda/Eval.cs:178-180 | an `[offset]` above the number of children fails with OffsetTooLarge before anything runs |
| Eval.NegativeOffsetFails | plugins/p5.lambda/Eval.cs:182-183 | a negative `[offset]` fails before anything runs |
| Eval.FirstVisited | plugins/p5.lambda/Eval.cs:168-188 | with a valid `[offset]` N the first node visited is child N. Without one it is the first child, and nothing is visited exactly when there are no children |
| Eval.InertBlockInOrder | plugins/p5.lambda/Eval.cs:163-215 | with handlers that change nothing and no sentinel, the block visits its children from the offset (or from the first) each once, in child order, and ends normally |
| Eval.InertLoopFromFirst | plugins/p5.lambda/Eval.cs:190-214 | with handlers that change nothing and no sentinel, the loop from the first child visits every child once, in order, and ends normally with the tree unchanged |
| Eval.DetachedFallsBack | plugins/p5.lambda/Eval.cs:210-213 | after a handler detaches its own node, the loop goes to the recorded sibling if that still has a parent, and otherwise ends |
| Blocks.NewChildren | plugins/p5.lambda/Eval.cs:133 | keeps exactly the copy's children that were not among the original children, and no more nodes than the copy has |
| Blocks.NewChildrenConcat | plugins/p5.lambda/Eval.cs:133 | the `Where` filter distributes over concatenation, so the new nodes keep the order they have in the copy |
| Blocks.NewChildrenAppended | plugins/p5.lambda/Eval.cs:118-133 | when the run only appended new nodes to the original children, the diff is exactly the appended nodes |
| Blocks.PrepareCopy | plugins/p5.lambda/Eval.cs:111-116 | the fresh copy is the block's clone with clones of the arguments inserted in front, last one first. CopyPrependsArgs states its shape |
| Blocks.CopyPrependsArgs | plugins/p5.lambda/Eval.cs:111-116 | the working copy's content is the block's name and value, with the arguments' contents in order followed by the block's own children |
| Blocks.StripLeadingReturn | plugins/p5.lambda/Eval.cs:125-127 | the method detaches a leading `_return` child as StripReturn specifies |
| Blocks.StripReturnFacts | plugins/p5.lambda/Eval.cs:125-127 | a leading `_return` is detached and the other children stay in order. Otherwise the tree is unchanged. Names and values are never changed |
| Blocks.AddCopies | plugins/p5.lambda/Eval.cs:133 | the destination gains copies of the given nodes at the end, in order |
| Blocks.DeliverFacts | plugins/p5.lambda/Eval.cs:129-134 | the destination's children are cleared only on the first call, then copies of the new nodes are appended and the copy's value is set. No node outside the destination changes |
| Blocks.ExecuteBlockCopy | plugins/p5.lambda/Eval.cs:102-135 | the copy-mode method leaves the caller's tree and the outcome of the specification `CopyRun` |
| Blocks.CopyRun | plugins/p5.lambda/Eval.cs:102-135 | the outcome is that of running the working copy, and a run that throws leaves the caller's tree untouched |
| Blocks.CopyDelivers | plugins/p5.lambda/Eval.cs:102-135 | a copy-mode run that throws leaves the caller's tree untouched. Otherwise the destination keeps its children (none if first), gains copies of exactly the nodes the run added to the copy's root, and takes the copy's value. Nothing else changes |
| Blocks.UnchangedCopyReturnsNothing | plugins/p5.lambda/Eval.cs:129-134 | a run that leaves its copy unchanged adds no children to the destination and sets the block's own value |
| Blocks.AddArguments | plugins/p5.lambda/Eval.cs:147-150 | the block gains clones of the arguments at the end, each taken from the tree as it is then |
| Blocks.ArgumentsAppended | plugins/p5.lambda/Eval.cs:147-150 | after the arguments are added, the block's old children stay in front and fresh copies of the arguments follow in order. Copy i is a whole copy of argument i as it stood after the copies before it were appended. No other node changes |
| Blocks.ArgumentCopies | plugins/p5.lambda/Eval.cs:147-150 | each appended copy reads back as the full content of its argument, taken from the tree that already holds the earlier copies |
| Blocks.ClonesAreAppendAll | plugins/p5.lambda/Eval.cs:147-150 | cloning the arguments one at a time is appending, in order, the contents they had when each was cloned |
| Blocks.ClonedContentsAt | plugins/p5.lambda/Eval.cs:148-149 | the content cloned for argument i is taken from the tree holding the first i copies |
| Blocks.ExecuteBlockMutable | plugins/p5.lambda/Eval.cs:140-158 | the mutable-mode method leaves the caller's tree and the outcome of the specification `MutableRun` |
| Blocks.MutableRun | plugins/p5.lambda/Eval.cs:140-158 | a detached block changes nothing the caller can see, and the outcome is that of running the block with its argument copies |
| Blocks.MutableDelivers | plugins/p5.lambda/Eval.cs:140-158 | for a block in the caller's tree, the caller's tree after the run is the tree the run left: as is when the run threw, and with a leading attached `_return` detached (and only that) when it completed. Names and values are those the run left |
| Blocks.UnchangedMutableKeepsArguments | plugins/p5.lambda/Eval.cs:140-158 | when a mutable run changes nothing and leaves no `_return`, the block keeps its old children followed by whole copies of the arguments, in order |
| Events.Invoke | plugins/p5.lambda/Eval.cs:53-68 | runs the block runner the event chose (copy for `[eval]`, mutable for `[eval-mutable]`) |
| Events.SweepCall | plugins/p5.lambda/Eval.cs:89-94 | one round of the foreach calls the functor on source i with the event node's current children and continues the sweep unless that call threw |
| Events.RunSources | plugins/p5.lambda/Eval.cs:86-94 | the foreach over the sources with its `isFirst` flag ends with the tree and outcome of `Sweep` |
| Events.Sweep | plugins/p5.lambda/Eval.cs:86-94 | a sweep ends normally or with the outcome of a call that threw. A `_return` in one call does not stop the sweep |
| Events.Executor | plugins/p5.lambda/Eval.cs:73-96 | the executor's tree and outcome are those of `Execute`: one call on the event node itself when children are forced or the value is null, otherwise a sweep over the sources |
| Events.Execute | plugins/p5.lambda/Eval.cs:73-96 | the executor never hands an unwind to its caller: it ends normally or with the error of a call |
| Events.UnforcedSweeps | plugins/p5.lambda/Eval.cs:79-94 | without forced children and with a non-null value, the executor is the sweep over the sources from the first |
| Events.Event | plugins/p5.lambda/Eval.cs:53-68 | raising `[eval]` or `[eval-mutable]` ends normally or with the error of a block run |
| Events.OwnNameSweeps | plugins/p5.lambda/Eval.cs:53-68 | an event node carrying the event's own name and a value sweeps the sources its value resolves to |
| Events.RaiseEval | plugins/p5.lambda/Eval.cs:53-68 | raising `[eval]` or `[eval-mutable]` forces the children exactly when the node carries another name |
| Events.ForcedIgnoresSources | plugins/p5.lambda/Eval.cs:79-83 | with forced children or a null value, the sources play no part. The worker runs once on the event node, with no arguments, as the first call |
| Events.RenamedEventRunsChildren | plugins/p5.lambda/Eval.cs:53-68 | an event node under another name runs its own children, whatever its value resolves to |
| Events.SweepOncePerSource | plugins/p5.lambda/Eval.cs:88-94 | the sweep calls the worker on the sources in order, with `isFirst` true only on the first. It reaches every source on a normal end, and a call that throws is the last one made |
| Events.LaterCopyAddsOnly | plugins/p5.lambda/Eval.cs:129-134 | a copy-mode call that is not the first keeps every node of the caller's tree and the destination's existing children, and only appends |
| Events.LaterSweepAddsOnly | plugins/p5.lambda/Eval.cs:88-94 | a sweep from the second source on, with a worker whose later calls only add, itself only adds to the destination |
| Events.LaterCopiesKeep | plugins/p5.lambda/Eval.cs:88-94 | in `[eval]` over several sources, everything delivered by the first call survives the later calls, which only append |
| Authorization.ContainsPair | plugins/extras/p5.io.authorization/helpers/AuthorizationHelper.cs:149-154 | `Contains` of a two-character string holds if and only if those characters stand next to each other |
| Authorization.ContainsChar | plugins/extras/p5.io.authorization/helpers/AuthorizationHelper.cs:151-152 | `Contains` of a one-character string holds if and only if that character occurs |
| Authorization.Lower | plugins/extras/p5.io.authorization/helpers/AuthorizationHelper.cs:54 | lower-casing keeps the length and lowers each ASCII letter in place |
| Authorization.ConfigExtension | plugins/extras/p5.io.authorization/helpers/AuthorizationHelper.cs:251 | `Path.GetExtension(path) == ".config"` holds if and only if the path ends with ".config" |
| Authorization.Extension | plugins/extras/p5.io.authorization/helpers/AuthorizationHelper.cs:251 | the extension is a suffix of the path. When not empty it is a '.' followed by at least one character, with no other '.' and no separator after it |
| Authorization.SaneFileName | plugins/extras/p5.io.authorization/helpers/AuthorizationHelper.cs:142-158 | a file name is sane if and only if it is non-empty, starts with '/', and has no backslash, "//" or ".." |
| Authorization.SaneFolderName | plugins/extras/p5.io.authorization/helpers/AuthorizationHelper.cs:163-173 | a folder name is sane if and only if it is a sane file name ending with '/' |
| Authorization.SaneFolderIsSaneFile | plugins/extras/p5.io.authorization/helpers/AuthorizationHelper.cs:163-167 | every sane folder name is a sane file name |
| Authorization.Filter | plugins/extras/p5.io.authorization/helpers/AuthorizationHelper.cs:193-195 | one RemoveAll keeps no more entries than it is given. FilterMembers states which it keeps |
| Authorization.FilterMembers | plugins/extras/p5.io.authorization/helpers/AuthorizationHelper.cs:193-195 | one RemoveAll keeps exactly the access objects that meet its condition |
| Authorization.SurvivorsRelevant | plugins/extras/p5.io.authorization/helpers/AuthorizationHelper.cs:192-195 | an object survives the three filters if and only if it is for "*" or the caller's role, has an allow or deny right for the operation, and its path is a prefix of the checked path |
| Authorization.SurvivorsWithout | plugins/extras/p5.io.authorization/helpers/AuthorizationHelper.cs:192-195 | removing an irrelevant object from the access list leaves the survivors unchanged |
| Authorization.CompareOrdinal | plugins/extras/p5.io.authorization/helpers/AuthorizationHelper.cs:204 | the path comparison returns -1, 0 or 1, and 0 exactly for equal strings |
| Authorization.Compare | plugins/extras/p5.io.authorization/helpers/AuthorizationHelper.cs:201-217 | the comparison returns -1, 0 or 1. It is 0 exactly when the lower-cased paths are equal and both or neither role is "*". Different paths are ordered by the path alone |
| Authorization.CompareFlip | plugins/extras/p5.io.authorization/helpers/AuthorizationHelper.cs:201-217 | the sort comparison is antisymmetric |
| Authorization.CompareTrans | plugins/extras/p5.io.authorization/helpers/AuthorizationHelper.cs:201-217 | the sort comparison is transitive |
| Authorization.SortAccess | plugins/extras/p5.io.authorization/helpers/AuthorizationHelper.cs:200-217 | the sorted list is a permutation of the survivors and is ordered by the comparison: case-insensitive path, then "*" before a named role |
| Authorization.DecideStep | plugins/extras/p5.io.authorization/helpers/AuthorizationHelper.cs:222-227 | one round of the foreach: an allow sets true, a deny sets false, anything else keeps the value |
| Authorization.Decide | plugins/extras/p5.io.authorization/helpers/AuthorizationHelper.cs:219-227 | a result other than the default is the decision of some object in the list |
| Authorization.DecideInOrder | plugins/extras/p5.io.authorization/helpers/AuthorizationHelper.cs:219-227 | the foreach over the sorted list, starting from the default, returns `Decide` |
| Authorization.CheckAccessRights | plugins/extras/p5.io.authorization/helpers/AuthorizationHelper.cs:178-233 | the filter, sort and loop method returns `AccessRights`. GreatestDecides and the default lemmas below characterise that function |
| Authorization.AccessRights | plugins/extras/p5.io.authorization/helpers/AuthorizationHelper.cs:178-233 | a result other than the default is the decision of an access object in the list that is relevant to the role, operation and path |
| Authorization.DecideNone | plugins/extras/p5.io.authorization/helpers/AuthorizationHelper.cs:219-227 | when no object decides, the loop leaves the default |
| Authorization.DecideStands | plugins/extras/p5.io.authorization/helpers/AuthorizationHelper.cs:219-227 | the loop ends with the decision of the last object that decides |
| Authorization.SortedGreatest | plugins/extras/p5.io.authorization/helpers/AuthorizationHelper.cs:200-227 | in the sorted list the decision that stands belongs to an object that no other deciding object sorts after |
| Authorization.SortedSurvivors | plugins/extras/p5.io.authorization/helpers/AuthorizationHelper.cs:192-217 | the sorted survivors hold exactly the relevant access objects |
| Authorization.DefaultWithoutDecider | plugins/extras/p5.io.authorization/helpers/AuthorizationHelper.cs:178-233 | with no relevant object that decides, the result is the default |
| Authorization.DefaultWithoutRelevant | plugins/extras/p5.io.authorization/helpers/AuthorizationHelper.cs:186-198 | with no relevant access object, including an empty list, the result is the default |
| Authorization.GreatestDecides | plugins/extras/p5.io.authorization/helpers/AuthorizationHelper.cs:178-233 | when some relevant object decides, the result is the decision of a relevant deciding object that no other relevant deciding object sorts after |
| Authorization.IrrelevantIgnored | plugins/extras/p5.io.authorization/helpers/AuthorizationHelper.cs:192-195 | adding or removing an access object that fails any filter never changes the result |
| Authorization.RoleOverridesStar | plugins/extras/p5.io.authorization/helpers/AuthorizationHelper.cs:206-215 | when a role-specific deciding object has the greatest path, the decision comes from a role-specific object on that same path, never from a "*" one |
| Authorization.UserHasReadAccessToFile | plugins/extras/p5.io.authorization/helpers/AuthorizationHelper.cs:239-260 | read access is granted only outside other users' folders, the database path, `.config` files and the authentication file. A refusal there comes from a relevant deny object |
| Authorization.UserHasReadAccessToFolder | plugins/extras/p5.io.authorization/helpers/AuthorizationHelper.cs:265-280 | folder access is granted only outside other users' folders and the database path. A refusal there comes from a relevant deny object |
| Authorization.UserHasWriteAccessToFile | plugins/extras/p5.io.authorization/helpers/AuthorizationHelper.cs:286-298 | writes under the user's own folder and "/common/" are always granted. Elsewhere a grant comes from a relevant allow object |
| Authorization.UserHasWriteAccessToFolder | plugins/extras/p5.io.authorization/helpers/AuthorizationHelper.cs:303-315 | writes under "/users/<role>/" and "/common/" are always granted. Elsewhere a grant comes from a relevant allow object |
| Authorization.AuthorizeReadFile | plugins/extras/p5.io.authorization/helpers/AuthorizationHelper.cs:41-60 | a read of a file either passes or fails as an invalid path or as off limits, naming the path given |
| Authorization.AuthorizeModifyFile | plugins/extras/p5.io.authorization/helpers/AuthorizationHelper.cs:65-84 | a modification of a file either passes or fails as an invalid path or as off limits, naming the path given |
| Authorization.AuthorizeReadFolder | plugins/extras/p5.io.authorization/helpers/AuthorizationHelper.cs:89-109 | a read of a folder either passes or fails as an invalid path or as off limits, naming the path given. FoldersOffLimits and ReadFolderOtherwiseByAccessList state the rule for non-root callers |
| Authorization.AuthorizeModifyFolder | plugins/extras/p5.io.authorization/helpers/AuthorizationHelper.cs:114-133 | a modification of a folder either passes or fails as an invalid path or as off limits, naming the path given. FoldersOffLimits and ReadFolderOtherwiseByAccessList state the rule for non-root callers |
| Authorization.InsanePathsRejected | plugins/extras/p5.io.authorization/helpers/AuthorizationHelper.cs:41-133 | every authorizer rejects an insane path as invalid, whatever the role |
| Authorization.RootNeverDenied | plugins/extras/p5.io.authorization/helpers/AuthorizationHelper.cs:41-133 | the "root" role is never refused a sane path |
| Authorization.OtherUsersFilesOffLimits | plugins/extras/p5.io.authorization/helpers/AuthorizationHelper.cs:241-243 | a non-root caller may not read under another user's folder, whatever the access list says |
| Authorization.ConfigFilesOffLimits | plugins/extras/p5.io.authorization/helpers/AuthorizationHelper.cs:250-252 | a non-root caller may not read a `.config` file |
| Authorization.AuthAndDbFilesOffLimits | plugins/extras/p5.io.authorization/helpers/AuthorizationHelper.cs:245-256 | a non-root caller may not read the authentication file or anything under the database path (default "/db/") |
| Authorization.ReadOtherwiseByAccessList | plugins/extras/p5.io.authorization/helpers/AuthorizationHelper.cs:239-260 | outside those shields, a non-root read is decided by the access list. It is allowed when no access object is relevant |
| Authorization.OwnAndCommonWritable | plugins/extras/p5.io.authorization/helpers/AuthorizationHelper.cs:286-294 | any caller may modify files under its own user folder and under "/common/" |
| Authorization.WriteOtherwiseByAccessList | plugins/extras/p5.io.authorization/helpers/AuthorizationHelper.cs:286-298 | elsewhere a non-root write is decided by the access list. It is refused when no access object is relevant |
| Authorization.ModifyFolderIsReadFolder | plugins/extras/p5.io.authorization/helpers/AuthorizationHelper.cs:114-133 | modifying a folder is allowed exactly when reading it is |
| Authorization.UsersFolderNotShielded | plugins/extras/p5.io.authorization/helpers/AuthorizationHelper.cs:265-280 | "/users/" itself passes the user-folder shield. Only the database path and the access list decide it |
| Authorization.FoldersOffLimits | plugins/extras/p5.io.authorization/helpers/AuthorizationHelper.cs:265-276 | for a non-root caller, a folder strictly under "/users/" other than its own, and anything under the database path (default "/db/"), is off limits for reading and for modification |
| Authorization.ReadFolderOtherwiseByAccessList | plugins/extras/p5.io.authorization/helpers/AuthorizationHelper.cs:265-280 | outside those folders, a non-root caller's folder read or modification is decided by the access list under "read". It is allowed when no access object is relevant |
| Authorization.CapitalisedUsernameLockedOut | plugins/extras/p5.io.authorization/helpers/AuthorizationHelper.cs:242 | user "Bob" is refused reads under "/users/Bob/", because the path is lower-cased and the username is not |
| Authorization.WriteFolderUsesRole | plugins/extras/p5.io.authorization/helpers/AuthorizationHelper.cs:303-307 | the unused folder write rule grants "/users/<role>/", not the user's own folder |

## Left out

- Handlers are a supplied pure function of the tree. Handlers that re-enter the evaluator, see trees other than the one they run in, or keep references to nodes are not modelled.
- The event registry, the application context and the exception objects are not modelled. A thrown `LambdaException` becomes an error tag, and a handler's exception becomes `HandlerError` with its message.
- Non-termination is not modelled. A fuel bound stands for it, and running out of fuel is the distinct outcome `Exhausted`.
- Expression evaluation (`XUtil.Iterate`) is out: the sources a value resolves to are a parameter. A source that is not a node of the caller's tree is a detached content tree.
- Node-valued node values are out. Values are null, integers or text, so a mutable run on a node stored as a value changes nothing the caller can see.
- `Get<int>` on the `[offset]` value is a supplied conversion function.
- `Node` from p5.core is not part of this model. Its integer indexer is taken to throw for a negative index, so a negative `[offset]` is an error (`OffsetNegative`).
- A source that is the event node itself in mutable mode is not modelled as the C# failure: enumerating children while adding to them is taken as a snapshot first.
- `AddRange` moves or shares the new nodes of the discarded copy (p5.core's `Add` is not part of this model). The model appends copies of them, which has the same content, because the copy is never seen again.
- Eval.SkipRule: the `StartsWith("_")` and `StartsWith(".")` tests of `plugins/p5.lambda/Eval.cs:199` are culture-sensitive in .NET. The model tests the first character ordinally, so it can differ for names that begin with characters a culture-aware comparison ignores, such as a soft hyphen before `_`.
- Blocks.ExecuteBlockCopy: the `IndexOf` diff is by node identity; a `Node.Equals` override in p5.core is not part of this model.
- Authorization.SortAccess: `List.Sort` is an unstable sort. The model uses an insertion sort, so the order it gives to objects that compare equal is one of those `List.Sort` may give. GreatestDecides states what holds for every such order.
- Authorization.CompareOrdinal: culture-aware, case-insensitive `string.Compare` and `ToLower` are modelled as ordinal comparison on ASCII lower case.
- `StartsWithEx` is modelled as a plain prefix test.
- `Get<string>` on an access object's path value is out: the first child's value is taken as a string.
- The `p5.auth.access.list` event, the `.p5.config.get` event for the database path and `GetAuthFile` are fields of the context, not events.
- Authorization.ConfigExtension: `Path.GetExtension` is modelled with '/', '\\' and ':' as separators, and nothing more about platform path rules.
