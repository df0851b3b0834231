# Verified model of the Kurento Media Server core

This project models, in Dafny 4.11, the parts of Kurento Media Server that carry hard state, tree or
arithmetic properties, and proves those properties for every input, run or reachable state.

| file | what it models |
|---|---|
| `PropertyTrees.dfy`, `MergeLaws.dfy` | the in-place merge of ordered property trees and its algebra |
| `ModuleLoader.dfy`, `LoadOrder.dfy`, `LoadedSettings.dfy`, `Text.dfy`, `Options.dfy` | keys, location lists, recursive directory loading, order independence, where settings end up |
| `JsonValues.dfy`, `References.dfy`, `Transactions.dfy` | transactions with `newref:` substitution, refined to a client that sends one operation at a time |
| `RpcMethods.dfy` | the session each remote procedure reports back |
| `RequestCaching.dfy`, `Replay.dfy` | the two-level response cache with one-shot timers, and duplicate requests |
| `Connections.dfy`, `MessageLoop.dfy` | the session/connection registry, message handling, sticky binding |
| `EventHandlers.dfy` | event handlers shared between subscriptions |
| `NumberPrinting.dfy` | number printing into fixed buffers |
| `Registrar.dfy` | the reconnecting worker and its backoff |

State that the server changes in place is a class here, and every method of such a class is tied to a
function of the old state; the laws are proved about those functions. `dafny verify dfyconfig.toml`
checks the whole project. Automatic induction is switched off where Dafny would use it in a lemma: every
induction is written out.

Each operation is described twice: by a function its method is tied to, and by lemmas that say what it leaves
in terms of the trees, members, maps and texts it was given, without that function's own helpers.

## Results that differ from what one might expect

- Merging the same tree twice is the same as merging it once even when the tree holds duplicate keys
  (`MergeIdempotent`): an overridden duplicate never shows again. With a dotted key it is not: the library
  erases such a key as it is but adds it as a path, so every merge adds another entry (`DottedKeysPileUp`);
  unless a dotted key starts with another key of its object, it is exactly when no key at any level is dotted
  (`MergeIdempotentExactly`). A leaf that comes later under the same first component undoes it
  (`LaterLeafUndoes`).
- Merging is associative for every first tree exactly when no object of the third tree meets a leaf or an
  array of the second (`MergeAssociativeExactly`). Where one does, `IncompatibleWitness` builds a first tree
  that tells the two orders apart.
- The registry's two connection maps stay inverse exactly when storing a connection does not confuse two
  expired handles (`StoreKeepsBijectionExactly`, and `ExpiredHandlesAreConfused` for an input); a connection
  is stored while it lives, so runs are safe.
- The secure flags do not stay in step with the bindings: moving a connection to another session leaves the
  flag of the old one, and nothing else does (`StoreKeepsFlagsExactly`, `MovingLeavesAFlag`).
- A transaction equals the client that sends its operations one at a time unless the session id is itself a
  reference, there is an operation, and the two do not turn the first one down alike (`RunIsClientExactly`,
  and `ReferenceSessionDisagrees` for an input).
- The order in which files are loaded can show above them only, and there only in how children under different
  keys are interleaved (`LoadOrderIrrelevant`, `AlikeExactly`).
- Clients choose session ids and event types. A `|` in a session id alone does no harm when object ids and
  event types have none (`EventIdInjectiveAnySession`), nor does one in an event type alone
  (`EventIdInjective`). With one in both, two subscriptions can share a handler that belongs to the wrong
  session, even when the object does not support the second event type (`BarsCollide`). Subscribing is right
  exactly when the key is not held by a live handler of another topic (`SubscribeKeepsInvExactly`).
- In base 4 and below some 64-bit numbers are printed without their leading digits; from base 5 on none is
  (`ExactFromBaseFive`).
- A negative number is printed by looking up digits at negative indices, except for -2^30 and -2^31 in base 2,
  which come out as a sign and thirty zeros (`Itoa`).

## What is assumed

- The JSON-RPC handler skips the method when pre-processing says so, and otherwise runs the method and then
  post-processing. Its helper `getValue` raises a call exception for a missing member; reading a string
  accepts strings and integers, every other JSON type is taken as rejected. Objects answered by a
  handler hold `result` only when the call succeeded.
- A negative array index, an index outside the integer range, and a member read from a result that is neither
  null nor an object raise exceptions that the transaction does not catch; the model calls them `Uncaught`.
- The media layer keeps a handler alive exactly as long as a subscription refers to it; object signals
  hold weak references. Generated ids and handlers are new; generated ids contain no `_`.
- The property tree library reads the first child under a key, erases all, and appends. Reading, adding and
  putting take a key as a path with dots, which an empty key or a final dot leaves without a last component when
  reading and with an empty one when adding (builds with assertions stop there instead); erasing takes it as it is.
- Boost's older rule for stems holds: everything from the last dot is the extension, except for `.` and `..`.
- Messages, timers and cache accesses are taken one at a time. The registry's run theorem allows any
  interleaving of the locked sections and of handle expiry.

## Model

| member | source | states |
|---|---|---|
| `PropertyTrees.CountIsSizeExactlyForOneKey` | server/loadConfig.cpp:80 | the array test holds exactly when all keys are the empty key |
| `PropertyTrees.MergePropertyTrees` | server/loadConfig.cpp:72-95 | the in-place loop leaves the right-biased merge of the old tree and any second one: leaf, array, object, level 0, and keys that are empty or dotted |
| `MergeLaws.ArraysAreCopied` | server/loadConfig.cpp:77-82 | below the root, a second tree with no key but the empty one (a leaf or an array) takes the place of whatever was there |
| `MergeLaws.ObjectsAreMerged` | server/loadConfig.cpp:83-93 | an object is merged: the first tree keeps its data and what is under other keys, and under each key of the object is the merge of what both have there |
| `MergeLaws.RootArrayKeepsLast` | server/loadConfig.cpp:77-93 | an array at the root is not copied: its elements replace one another |
| `MergeLaws.LeavesAndArraysFound` | server/loadConfig.cpp:77-93 | every leaf and every array of the second tree is found where it was, with everything below it |
| `MergeLaws.ObjectsFound` | server/loadConfig.cpp:83-93 | where the second tree has an object, it is found merged with what the first has there |
| `MergeLaws.PathIsRead` | server/loadConfig.cpp:87-88 | a dotted key is read along its components |
| `MergeLaws.DottedEntryIsPlaced` | server/loadConfig.cpp:87-92 | an entry under a dotted key is put at that path if nothing is there |
| `MergeLaws.MergeTreesIsMerge` | server/loadConfig.cpp:72-95 | for second trees whose keys are not taken apart (plain ones, and empty ones over a leaf or an array) that merge is the plain one |
| `MergeLaws.MergeOrder` | server/loadConfig.cpp:84-93 | for such second trees, the exact child list: untouched children of the first tree in their order, then the second tree's keys once each by last occurrence, each with all its values merged in turn |
| `MergeLaws.MergeIdempotent` | server/loadConfig.cpp:72-95 | merging such a tree twice equals merging it once, at every level, duplicate keys or not |
| `MergeLaws.DottedKeysPileUp` | server/loadConfig.cpp:84-93 | what is under a dotted key grows with every merge, whatever the first tree and the other keys, unless its first component is a key itself |
| `MergeLaws.MergeIdempotentExactly` | server/loadConfig.cpp:72-95 | merging twice equals merging once for every first tree if and only if no key at any level is dotted, for second trees in whose objects no key is the start of a dotted one, the others are distinct, and empty ones hold a leaf or an array |
| `MergeLaws.LaterLeafUndoes` | server/loadConfig.cpp:84-93 | dotted keys do no harm when a leaf or an array comes last under their common first component |
| `MergeLaws.MergeEntriesAssociative` | server/loadConfig.cpp:84-93 | merging object contents is associative, order and data included, where no object meets a leaf or array |
| `MergeLaws.IncompatibleWitness` | server/loadConfig.cpp:84-93 | where an object does meet a leaf or an array, there is a first tree for which the two orders differ |
| `MergeLaws.MergeAssociativeExactly` | server/loadConfig.cpp:72-95 | merge(merge(a,b),c) = merge(a,merge(b,c)) for all a if and only if every node of b that meets an object of c is an object, for all b and c with plain, distinct keys |
| `MergeLaws.MergedWellFormed` | server/loadConfig.cpp:84-93 | compatible second trees merge to a second tree again: plain, distinct keys throughout |
| `MergeLaws.MergeThroughEmpty` | server/loadConfig.cpp:87-92 | merging c into nothing first makes no difference to a later merge |
| `MergeLaws.MergeLookup` | server/loadConfig.cpp:77-93 | what any route finds after a merge, elements of arrays and repeated children included: the first tree's node where the route leaves the second tree, what is put in place whole where it reaches that, nothing where there is no such node, a merged object otherwise |
| `MergeLaws.MergeData` | server/loadConfig.cpp:77-93 | what data is at the end of any route after a merge |
| `MergeLaws.AlikeExactly` | server/loadConfig.cpp:77-93 | trees are alike (the same data at the end of every route) if and only if they have the same data and, under each key, as many values, alike one by one: they differ at most in how children under different keys are interleaved |
| `MergeLaws.MergeKeepsAlike` | server/loadConfig.cpp:72-95 | merging a tree into alike trees leaves alike trees |
| `MergeLaws.AlikeReadAlike` | server/loadConfig.cpp:87-88 | the library reads the same data along every path of alike trees |
| `Text.SplitJoin` | server/loadConfig.cpp:163-176 | splitting a dotted key returns its dot-free components |
| `Text.JoinLines` | server/loadConfig.cpp:58-70 | joining the split pieces gives the text back, or the text without one trailing delimiter |
| `Text.LinesAreFree` | server/loadConfig.cpp:58-70 | no piece holds a delimiter |
| `Text.LinesJoin` | server/loadConfig.cpp:58-70 | joined pieces without delimiters, the last not empty, are read back |
| `ModuleLoader.Split` | server/loadConfig.cpp:58-70 | the loop yields exactly the lines of the text, with the join round trip |
| `ModuleLoader.DiffPathToKey` | server/loadConfig.cpp:150-177 | terminates for every descendant; the key joins the stems below the ancestor, and splitting it gives them back when they are dot-free |
| `ModuleLoader.KnownNames` | server/loadConfig.cpp:102-147 | any base, ".conf" and one of four endings make a name that is loaded under exactly that base |
| `ModuleLoader.KnownNamesOnly` | server/loadConfig.cpp:102-147 | no other names are loaded: base, ".conf", and one of the four endings |
| `ModuleLoader.PlaceOfFile` | server/loadConfig.cpp:197-206 | a file is put below "modules", under the stems of the directories it is in, outermost first, and its own name |
| `ModuleLoader.StemsLoseExtensions` | server/loadConfig.cpp:157-160 | directory names lose their extensions |
| `ModuleLoader.LoadFile` | server/loadConfig.cpp:97-148 | a file of unknown type or one that fails to parse changes nothing; any other, whatever its keys, is merged in with where it was found |
| `ModuleLoader.ReadWellFormed` | server/loadConfig.cpp:139-141 | reading a file with plain keys removes its repeated keys and leaves plain, distinct ones, surely when none was repeated and otherwise unless an object met an array |
| `ModuleLoader.LoadModule` | server/loadConfig.cpp:197-214 | loading any file merges its tree at the path made from its directory and name, or changes nothing |
| `ModuleLoader.LoadModulesConfigFromDir` | server/loadConfig.cpp:179-219 | recursion over directories equals folding their regular files in iteration order, for any files |
| `ModuleLoader.FilesOfExactly` | server/loadConfig.cpp:193-217 | a file is among those of a directory if and only if following directory names from its listing leads to a listing with that file |
| `ModuleLoader.FilesOfConcat` | server/loadConfig.cpp:193-217 | the files of a listing come in its order |
| `ModuleLoader.FilesOfOne` | server/loadConfig.cpp:193-217 | a file stands for itself, once; a directory for the files in it, in its place; anything else for none |
| `ModuleLoader.LoadModulesConfig` | server/loadConfig.cpp:221-242 | the locations of the list are loaded in turn, those that are no directory skipped |
| `ModuleLoader.AfterLocationsConcat` | server/loadConfig.cpp:235-241 | locations are loaded in the order of the list |
| `LoadedSettings.ReadFinds` | server/loadConfig.cpp:139-141 | what is read holds every setting of the file where the file has it, and the path it was found at |
| `LoadedSettings.SettingLoaded` | server/loadConfig.cpp:197-207 | once a file is loaded each of its settings, leaf or array, is found below its place, whatever was there |
| `LoadedSettings.EverySettingLoaded` | server/loadConfig.cpp:193-218 | with files at incomparable keys, every setting of every one is found in the end |
| `LoadedSettings.LastFileWins` | server/loadConfig.cpp:193-218 | the file loaded last has its settings, whatever the others are |
| `LoadedSettings.LastLocationWins` | server/loadConfig.cpp:235-241 | so have the files of the location that is last in the list |
| `LoadedSettings.SettingStays` | server/loadConfig.cpp:235-241 | a setting stays through locations none of whose files has a comparable key |
| `LoadOrder.NestedMergesCommute` | server/loadConfig.cpp:199-207 | merging trees nested at incomparable paths in either order leaves alike trees |
| `LoadOrder.NodeAfterFiles` | server/loadConfig.cpp:193-218 | the node at the end of any route after loading is what the files make of it in turn |
| `LoadOrder.DataAfterFiles` | server/loadConfig.cpp:193-218 | the data at the end of any route after loading is what the files make of it in turn |
| `LoadOrder.EffectsCommute` | server/loadConfig.cpp:199-207 | files at incomparable keys act in either order on the data at the end of any route, and on the whole node there unless it is above them |
| `LoadOrder.LoadOrderIrrelevant` | server/loadConfig.cpp:193-218 | every permutation of files at pairwise incomparable keys leaves alike trees, and equal nodes, child order included, at the end of every route that is not above the place of a file |
| `LoadOrder.PermutationIsShuffle` | server/loadConfig.cpp:191-194 | every permutation of a listing is one of its shuffles |
| `LoadOrder.ShuffledFiles` | server/loadConfig.cpp:191-218 | directory trees listed in any other order at every level hold the same files |
| `LoadOrder.ListingOrderIrrelevant` | server/loadConfig.cpp:179-242 | so does loading all locations however their directory trees are listed, when no two files of a location are at comparable keys |
| `LoadOrder.ModuleIsolated` | server/loadConfig.cpp:193-218 | each module's whole subtree, order included, is what loading it alone would give |
| `References.NumeralRefersToPosition` | server/ServerMethods.cpp:714-722 | the marker followed by the numeral of any 31-bit position is a reference to that position |
| `References.NumeralsMayBeLoose` | server/ServerMethods.cpp:714-722 | spaces and a plus sign before the numeral and whatever follows its digits do not matter |
| `References.ReferenceTakesValue` | server/ServerMethods.cpp:684-705 | a reference to a position takes the "value" member of that response's result, null for a null result, and is refused without one |
| `References.NoResponseThere` | server/ServerMethods.cpp:684-705 | a position without a response is refused |
| `References.PositionOutOfRange` | server/ServerMethods.cpp:687-722 | negative positions and those beyond 31 bits end in exceptions that are not caught |
| `References.NotAPosition` | server/ServerMethods.cpp:714-735 | text that does not start like a number is refused |
| `References.OtherStringsStay` | server/ServerMethods.cpp:710-713 | every string without the marker and something after it stays |
| `References.InsertResult` | server/ServerMethods.cpp:684-705 | the value of an earlier response, or which error stops the transaction |
| `References.InjectRefs` | server/ServerMethods.cpp:707-737 | the recursive in-place walk computes the substitution, failing at the first bad reference |
| `References.InjectAt` | server/ServerMethods.cpp:707-737 | for every path: replaced references hold the earlier value itself, never rescanned; all else keeps its shape; nothing is added or lost |
| `References.InjectSucceedsExactly` | server/ServerMethods.cpp:684-737 | injection succeeds if and only if every reference points strictly backwards at a response with a result |
| `References.InjectStable` | server/ServerMethods.cpp:707-737 | once every reference is resolved, more responses change nothing |
| `References.InjectSeesOnlyValues` | server/ServerMethods.cpp:687-691 | injection depends on responses only through the values of their results |
| `References.BareInjection` | server/ServerMethods.cpp:684-737 | before there is any response, injection fails as the first reference it meets does, and changes nothing when there is none |
| `Transactions.SubIdInjective` | server/ServerMethods.cpp:744-778 | ids of operations never collide across transactions and positions |
| `Transactions.RunIsClient` | server/ServerMethods.cpp:753-789 | for a session id that is no reference, from any point on, a finished run is what a client sees that sends the remaining operations one by one |
| `Transactions.RunIsClientExactly` | server/ServerMethods.cpp:753-789 | for every session id: a finished run is what that client sees if and only if the session id is no reference, there are no operations, the first one's id or shape is wrong, or another of its parameters holds a reference whose error is that of the first one the server meets |
| `Transactions.TurnedDownExactly` | server/ServerMethods.cpp:684-737 | for a session id that is a reference, server and client turn the first operation down alike exactly under the last two of these |
| `Transactions.ReferenceSessionDisagrees` | server/ServerMethods.cpp:758-780 | an operation without parameters, in a session named "newref:0", for which they do not |
| `Transactions.RequestIsNumbered` | server/ServerMethods.cpp:774-778 | the request of every step carries the transaction's unique id and its position |
| `Transactions.StepCarriesOperation` | server/ServerMethods.cpp:753-782 | the request of every step of a run carries the operation's own members but for the id, its own parameters with references replaced by earlier results, and the session |
| `Transactions.RequestCarriesOperation` | server/ServerMethods.cpp:753-782 | the same for one request, with the unique id, an underscore and the position as its id |
| `Transactions.WrongIdRefused` | server/ServerMethods.cpp:760-771 | an operation whose id is not its position is refused, for ids of every type |
| `Transactions.RightIdAccepted` | server/ServerMethods.cpp:760-771 | one whose id is its position is only turned down for its parameters |
| `Transactions.WrongShapeUncaught` | server/ServerMethods.cpp:756-758 | operations and parameters that are no objects end in an exception that is not caught |
| `Transactions.ResponsesAreKept` | server/ServerMethods.cpp:782-784 | a response is kept as it came, under its position |
| `Transactions.ReferenceSessionRunsNothing` | server/ServerMethods.cpp:758-780 | a session id that is itself a reference is resolved before any response exists, so nothing is run |
| `Transactions.Transaction` | server/ServerMethods.cpp:739-797 | runs a prefix of the operations in order, halting after the first failure or throwing at the first bad one with exactly the earlier ones executed; responses carry their position as id (section 5 of the JSON-RPC 2.0 Specification); equals the one-at-a-time client exactly under the condition of `RunIsClientExactly` |
| `RpcMethods.CallEchoes` | server/ServerMethods.cpp:356-842 | called with a session, every method that succeeds reports that session back, but for closeSession, which reports none |
| `RpcMethods.CallMintsSession` | server/ServerMethods.cpp:356-842 | without a session, the methods that can do without report the one made up for them, but for ping, which reports none |
| `RpcMethods.CallFailsExactly` | server/ServerMethods.cpp:356-842 | a call fails if and only if parameters or a member it needs are missing or the media layer refuses |
| `RpcMethods.CallKeepsResults` | server/ServerMethods.cpp:356-842 | what a method puts in its result is there next to the session |
| `RpcMethods.PingAnswersPong` | server/ServerMethods.cpp:800-819 | ping always succeeds and answers "pong" |
| `RpcMethods.SessionsInPlainTerms` | server/ServerMethods.cpp:215-231 | where a request and a response name their sessions |
| `RpcMethods.EveryMethodEchoes` | server/ServerMethods.cpp:337-344 | no response names another session than its request's |
| `RequestCaching.CacheEntry.constructor` | server/CacheEntry.cpp:49-69 | making an entry arms its timer |
| `RequestCaching.CacheEntry.Dispose` | server/CacheEntry.cpp:73-80 | letting go of an entry destroys its timer unless it has fired |
| `RequestCaching.RequestCache.AddResponse` | server/RequestCache.cpp:39-69 | adds to the flat map; stored entries and armed timers stay in one-to-one correspondence and a replaced entry's timer is gone |
| `RequestCaching.RequestCache.EraseKey` | server/RequestCache.cpp:49-68 | erases what is under the key and an emptied session bucket with it |
| `RequestCaching.RequestCache.Fire` | server/CacheEntry.cpp:57-66 | a firing timer removes exactly its own entry from the flat map |
| `RequestCaching.RequestCache.GetCachedResponse` | server/RequestCache.cpp:71-89 | looks up the flat map |
| `RequestCaching.FlatInserted` | server/RequestCache.cpp:48 | inserting into the two-level map is inserting into the flat one |
| `RequestCaching.FlatErased` | server/RequestCache.cpp:52-67 | erasing from the two-level map is erasing from the flat one |
| `RequestCaching.InsertedWellKeyed` | server/RequestCache.cpp:48 | entries stay under their own keys and no session bucket is empty |
| `RequestCaching.ErasedWellKeyed` | server/RequestCache.cpp:57-67 | the same after erasing |
| `Replay.StoredWhereLookedUp` | server/ServerMethods.cpp:302-354 | the key a response is stored under is the key its request is looked up under |
| `Replay.KeyInPlainTerms` | server/ServerMethods.cpp:306-311 | a request's key is the text or number under "id" with the session in its parameters |
| `Replay.NoKeyInPlainTerms` | server/ServerMethods.cpp:319-322 | without either there is none |
| `Replay.ServerMethods.PreProcess` | server/ServerMethods.cpp:301-323 | skips the method exactly when the request's key is cached, with the cached response |
| `Replay.ServerMethods.PostProcess` | server/ServerMethods.cpp:325-354 | records the response under its key unless one is there |
| `Replay.ServerMethods.Process` | server/ServerMethods.cpp:301-354 | handling a request and those its method makes in turn: the response, the cache as a flat map, and which methods are run |
| `Replay.CachedIsNotRun` | server/ServerMethods.cpp:314-318 | while a response is cached nothing with its key is run, however deeply nested |
| `Replay.ReplaysUntilFired` | server/ServerMethods.cpp:302-354 | over every run, a request that is not cached is executed once until its timer fires, nothing else with its key is, and all duplicates get the first response |
| `Replay.NewSessionReplays` | server/ServerMethods.cpp:325-354 | a request that named no session is stored under the one it was given: sent again in that session it gets the same response and is not run, until its timer fires |
| `Replay.NewSessionOverRun` | server/ServerMethods.cpp:302-354 | the same over whole runs from the empty cache |
| `Replay.FiredRunsAgain` | server/ServerMethods.cpp:314-322 | once its timer has fired a request is run again |
| `Replay.RecordedWhenDone` | server/ServerMethods.cpp:301-354 | a request is recorded when its method is done, not before |
| `Replay.StepsAlwaysRun` | server/ServerMethods.cpp:753-782 | numbered steps with a new unique id are all executed, transactions among them included, and none is answered from the cache |
| `Replay.LoopNumbersSteps` | server/ServerMethods.cpp:753-782 | the transaction loop over the cached handler numbers its steps that way |
| `Replay.LoopServesCalls` | server/ServerMethods.cpp:753-782 | it leaves the cache that serving its steps one after the other leaves |
| `Replay.TransactionRunsItsSteps` | server/ServerMethods.cpp:739-797 | so every request the loop makes over the cached handler is executed and none is answered from the cache, whatever the operations and however far it gets; and the transaction is a numbered call, as the run theorems take it |
| `Replay.ServeAdds` | server/ServerMethods.cpp:325-354 | whatever serving a request leaves in the cache is under its own id or a step's of its transactions |
| `Replay.EveryStepRuns` | server/ServerMethods.cpp:753-782 | over every run from the empty cache in which unique ids are all different and no request from outside has a step's id, a request that is not replayed has its method run and all the steps below it |
| `Replay.ReplaysOverRun` | server/ServerMethods.cpp:302-354 | in such a run, until the timer of its response fires, every later request with the session and id of one that was run gets its response and runs nothing |
| `Replay.ServeEchoes` | server/ServerMethods.cpp:301-354 | cached answers name the session they are cached under, so replayed ones echo too |
| `Connections.StoredIsRebound` | server/transport/websocket/WebSocketTransport.cpp:466-521 | storing rebinds the session to the connection and frees both old ends, in both maps |
| `Connections.StoreBinds` | server/transport/websocket/WebSocketTransport.cpp:466-521 | a live connection that is stored is bound to the session in both maps and flagged with its kind; the ends both had before are free and all other bindings and flags stay |
| `Connections.CloseFrees` | server/transport/websocket/WebSocketTransport.cpp:628-643 | closing frees the connection and its session, flag included, and nothing else |
| `Connections.StoreKeepsBijectionExactly` | server/transport/websocket/WebSocketTransport.cpp:474-508 | the maps stay inverse if and only if two expired handles are not confused |
| `Connections.StoreKeepsFlagsExactly` | server/transport/websocket/WebSocketTransport.cpp:490-519 | flags and bindings stay in step if and only if no connection moves to another session |
| `Connections.MovingLeavesAFlag` | server/transport/websocket/WebSocketTransport.cpp:490-519 | a connection moving from session "a" to "b" leaves the flag of "a" |
| `Connections.ExpiredHandlesAreConfused` | server/transport/websocket/WebSocketTransport.cpp:474-508 | two expired handles that end up bound to one session |
| `Connections.CloseKeepsInv` | server/transport/websocket/WebSocketTransport.cpp:628-643 | closing frees the connection and its session and nothing else |
| `Connections.RunKeepsInv` | server/transport/websocket/WebSocketTransport.cpp:466-643 | every interleaved run keeps the maps inverse and every session flagged with the kind of its connection |
| `Connections.RoutedFromTheStart` | server/transport/websocket/WebSocketTransport.cpp:466-643 | in every reachable state, the session of a connection goes to that connection, by the server that owns it |
| `Connections.WebSocketTransport.StoreConnection` | server/transport/websocket/WebSocketTransport.cpp:466-521 | the statement-by-statement update of the three maps |
| `Connections.WebSocketTransport.CloseHandler` | server/transport/websocket/WebSocketTransport.cpp:628-643 | removes the connection's binding from the three maps, if it has one |
| `Connections.WebSocketTransport.Send` | server/transport/websocket/WebSocketTransport.cpp:523-541 | goes to the session's connection by the server that owns it, changing nothing |
| `MessageLoop.InjectedNamesSession` | server/ServerMethods.cpp:234-255 | an injected request names its own session, or else the connection's |
| `MessageLoop.InjectedKeepsRest` | server/ServerMethods.cpp:234-255 | injection adds the session and keeps every other member and parameter |
| `MessageLoop.MessageSession` | server/ServerMethods.cpp:257-293 | the session a message leads to is its own, the connection's, or new for an unbound connection |
| `MessageLoop.ProcessMessage` | server/transport/websocket/WebSocketTransport.cpp:543-571 | one message: injection, handling through the cache, rebinding, and exactly when an answer is sent |
| `MessageLoop.AnswerBinds` | server/transport/websocket/WebSocketTransport.cpp:543-562 | a message answered with a session binds its connection to that session, in both maps and with its kind |
| `MessageLoop.FirstRequestResent` | server/ServerMethods.cpp:257-354 | a client's first request, sent again on the connection it got its session on, gets the same answer, changes nothing and is not run again |
| `MessageLoop.NoiseChangesNothing` | server/ServerMethods.cpp:265-271 | a payload that does not parse changes nothing and is not answered |
| `MessageLoop.OddResponseUnanswered` | server/ServerMethods.cpp:215-231 | a response that is neither an object nor null is not sent and binds nothing |
| `MessageLoop.EventsInPlainTerms` | server/transport/websocket/WebSocketTransport.cpp:573-643 | what opening, closing, expiring and timing out do |
| `MessageLoop.SilentAnswerChangesNothing` | server/ServerMethods.cpp:215-231 | on any connection, an error, or a result without a session, leaves the registry as it was |
| `MessageLoop.StepIsSticky` | server/transport/websocket/WebSocketTransport.cpp:544-562 | a bound connection keeps its session through every step but the three that release it: closing, a message on it naming another session, one on another connection naming this one |
| `MessageLoop.BindingIsSticky` | server/transport/websocket/WebSocketTransport.cpp:544-562 | the same over whole runs, whatever other clients connect meanwhile |
| `MessageLoop.BoundFromThenOn` | server/transport/websocket/WebSocketTransport.cpp:466-571 | from the start: once a connection has a session it keeps it until released, and messages for the session go to it by its own server |
| `EventHandlers.EventIdInjective` | server/transport/websocket/WebSocketTransport.cpp:605 | the joined key tells topics apart when session and object ids contain no bar |
| `EventHandlers.EventIdInjectiveAnySession` | server/transport/websocket/WebSocketTransport.cpp:605 | so it does for any sessions when object ids and event types contain none |
| `EventHandlers.DeliveredOnce` | server/transport/websocket/WebSocketTransport.cpp:599-626 | exactly one live handler for a topic with subscriptions, shared by all of them, and none without |
| `EventHandlers.SubscribeKeepsInvExactly` | server/transport/websocket/WebSocketTransport.cpp:605-624 | subscribing serves everyone rightly if and only if no live handler of another topic holds the key |
| `EventHandlers.SubscribeAdds` | server/transport/websocket/WebSocketTransport.cpp:605-624 | a subscription is added under its id with the live handler under session, object and event type joined by bars, or a new one; without either nothing changes |
| `EventHandlers.LettingGo` | server/transport/websocket/WebSocketTransport.cpp:599-626 | unsubscribing and releasing let go of exactly the subscriptions they name |
| `EventHandlers.BarsCollide` | server/transport/websocket/WebSocketTransport.cpp:605-624 | a pair of subscriptions with bars in session and event type whose keys collide, the second to an event that is not supported |
| `EventHandlers.OneHandlerPerTopic` | server/transport/websocket/WebSocketTransport.cpp:599-626 | over all runs of subscribing, unsubscribing and releasing in which no subscription collides, each event reaches a subscribed session once |
| `EventHandlers.DeliveredOnceOverRuns` | server/transport/websocket/WebSocketTransport.cpp:599-626 | so it does in every run from the start with bar-free object ids and event types and any sessions, or bar-free session and object ids and any event types |
| `EventHandlers.Subscriptions.ProcessSubscription` | server/transport/websocket/WebSocketTransport.cpp:598-626 | reuses the live handler under the key or makes and connects one, and when it fails |
| `NumberPrinting.PrintDigits` | server/death_handler.cpp:111-119 | all writes are within the 32 characters, the numeral has no leading zero when the number is below base^30, and it parses back to the number modulo base^30, to the number itself exactly when it is below that |
| `NumberPrinting.DigitsInOrder` | server/death_handler.cpp:115-117 | the sixteen digits stand for their values |
| `NumberPrinting.Utoa` | server/death_handler.cpp:101-120 | the same with zero included; at most 16 digits in base 16 |
| `NumberPrinting.Itoa` | server/death_handler.cpp:73-97 | the same for every 32-bit number that is not negative, exact from base 3 on; which negative ones have a result at all, and what it is |
| `NumberPrinting.ExactFromBaseFive` | server/death_handler.cpp:111-117 | 30 digits suffice for every 64-bit number from base 5 on, and do not in base 4 |
| `NumberPrinting.Ptoa` | server/death_handler.cpp:123-131 | "0x" and the exact hexadecimal form of any 64-bit value, in 64 characters |
| `NumberPrinting.StrCpy` | server/death_handler.cpp:127 | copies the numeral and its terminator between places that do not overlap |
| `Registrar.NextWaitIsBackoff` | server/transport/websocket/WebSocketRegistrar.cpp:201-205 | the capped doubling follows min(100 * 2^n, 10000) |
| `Registrar.BackoffStarts` | server/transport/websocket/WebSocketRegistrar.cpp:32-33 | 100 ms at first, 6400 at the sixth doubling and 10000 from then on |
| `Registrar.WaitAt` | server/transport/websocket/WebSocketRegistrar.cpp:170-205 | the wait starts again after an opening and is the next one otherwise |
| `Registrar.BackoffMonotoneAndBounded` | server/transport/websocket/WebSocketRegistrar.cpp:32-33 | waits never shrink between openings and stay between 100 and 10000 ms |
| `Registrar.WebSocketRegistrar.ConnectRegistrar` | server/transport/websocket/WebSocketRegistrar.cpp:99-209 | each wait is the backoff since the last opening; once stopped no attempt is begun and at most the current wait is finished |

## Left out

- MergeIdempotentExactly: objects in which a dotted key starts with another key, whose entry can undo what the dotted one adds (`LaterLeafUndoes` is one case), or a key with a dotted key below it occurs twice, or an empty key holds an object.
- MergeAssociativeExactly: second trees with empty or dotted object keys.
- MergeLookup: second trees with dotted or repeated object keys, or with an empty key over an object; `MergeOrder` covers repeated keys.
- Usable: order independence and isolation are about files that leave plain, distinct keys when they are read (`ReadWellFormed` says which do), and whose file and directory names give plain, non-empty key components. Loading itself is modelled for every file.
- Parsing of JSON, INFO, INI and XML, directory iteration and path normalisation: the model takes listings and parsed trees as input.
- JsonValues.StringMember: conversions of booleans, nulls and reals to strings, whose code is not part of this model.
- References.ParseIndex: a negative or overflowing index ends in an exception nobody catches; the model records that and nothing about what the exception does further up.
- RunIsClient: references inside the operations of a nested transaction are replaced by the outer one; the client it is compared with does the same.
- RpcMethods.Call: what the media layer, factories and resource checks do; the model takes their outcome as input, and keeps only the session of each result and when a call is refused.
- Itoa: what is read at a negative digit index; the model says `None` there.
- Transport set-up, TLS, thread pools, sending itself, keep-alive threads and logging.
- Data races: the unlocked read of the reverse map when a message arrives, a timer firing during an insertion, and two identical requests handled at once.
- Resource limits, the signal handler with its stack traces, version and main program.
