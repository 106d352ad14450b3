# message-pusher: a model and its proofs

Dafny models of the parts of message-pusher that are hardest to get right, with proofs over every input, every
trace or every interleaving. `dafny verify dfyconfig.toml` checks the whole project.

What is modelled, module by module:

- `Bytes`, `Utf8`, `Names`, `Values`, `Numerals`: byte strings, UTF-8 as in section 3 of RFC 3629, the longest-first
  order of variable names, JSON values, dotted paths, and numerals and JSON scalars as a reader takes them.
- `Quote`: the escaping of inserted values (`fmt`'s `%q`), a lexer for JSON strings (section 7 of RFC 8259) and the
  unescaping a JSON reader and a Go reader perform.
- `Paths`, `Template`, `TemplateLaws`, `TemplateStructure`: `RenderTemplate` and the path lookup of
  `common/variables.go`; what rendering means, and when it keeps the JSON around the placeholders.
- `Substitution`, `SubstitutionLaws`, `SubstitutionExact`, `SubstitutionAll`, `Webhook`: the construct rules of
  `model/webhook.go`, on values and on a tree changed in place; when the passes over the variables are one
  substitution, for values without `$` and for all values.
- `Delivery`, `DeliveryLaws`, `DeliveryRows`, `DeliveryProgress`, `DeliveryTwice`, `DeliveryCode`: asynchronous
  delivery as a step system with crashes and restarts; its invariants, what becomes of each row and of the queue, its
  progress, messages sent twice, and the code of each goroutine as a composition of steps.
- `RateLimit`, `RateLimitLaws`, `RateLimitWindows`, `RateLimitClocks`: the in-memory sliding-window limiter and the
  Redis one, what each promises of the requests it admits, and where they differ.
- `Telegram`: the chunk loop, its two ways of finding a split, when it ends and how few chunks it sends.
- `MessagesTable`, `MessagesRuns`, `MessagesCode`: the message list in the browser while requests overlap.
- `TokenStore`, `TokenStoreRuns`: the token store and its refresh cycle.
- `Verification`: verification codes and their purge.

In the step systems every sequence of steps is a run: a step the state is not ready for changes nothing. So a
statement about all sequences is one about all interleavings.

What the proofs found out about the code:

- A limit of zero: the in-memory limiter still admits the first request of a key, the Redis one admits none.
- The in-memory limiter reads whole seconds and so ends a window up to a second early; the Redis limiter does not. On
  one clock the two admit the same requests on all traces only when they admit none or all.
- A line of Markdown text longer than 4096 bytes after the first newline stops the chunk loop from advancing: it posts
  empty texts until a post is refused. The same happens in plain text where 4096 continuation bytes in a row follow
  another byte, which valid UTF-8 never has. A Markdown chunk can be 4097 bytes long, one over the limit, and a first
  line that is too long is cut inside a character that lies across a multiple of 4096 bytes.
- `%q` is not JSON: a value with a control character other than \b \t \n \f \r, with DEL, with invalid UTF-8 or with
  an unprintable character beyond U+FFFF makes a string no JSON reader accepts. The JSON around a
  placeholder is safe from every value exactly when it stands inside a string and not right after a backslash.
- The passes over a webhook rule read inserted values again, so that they agree with one substitution for all values
  only where no name but the last one tried is replaced. Even a value without `$` can complete a name an earlier `$`
  was waiting for, although the pairs are sorted so that one name does not hit another.
- A message that its request and the start-up loader both enqueue is sent twice, and its row can turn from Sent to
  Failed.
- An item added to the token store during a refresh, under a key the refresh knows, is overwritten by the older item.
- A search answered before a deletion and received after it brings the deleted row back to the message list.

## Model

| member | source | states |
|---|---|---|
| Names.SortNames | common/variables.go:29-39 | the names, each once, strictly ordered longest first and then bytewise, whatever order the map yields them in |
| Names.LexLessExactly | common/variables.go:34-39 | a text is less than another exactly when, where they first differ, the other goes on or has the greater byte |
| Names.SortedIsUnique | common/variables.go:34-39 | two sorted lists of the same names are equal, so the iteration order of the map leaves no trace |
| Names.FirstInSortedIsLongest | common/variables.go:50-55 | the first sorted name that fits after a `$` is the longest defined name that fits |
| Utf8.EncodedIsRead | common/variables.go:13-15 | every code point but the surrogates is read back from its UTF-8 form, whatever follows |
| Quote.EscapeIsIdentity | common/variables.go:13-15 | a value goes in as it is if and only if it is valid UTF-8 of printable characters without quotes and backslashes; any other gets longer |
| Quote.AsciiStays | common/variables.go:13-15 | printable ASCII but for quotes and backslashes goes in as it is |
| Quote.ControlsAreShort | common/variables.go:13-15 | a control character that has a letter is written with it |
| Quote.EscapeStaysInside | common/variables.go:13-15 | an escaped value, put into a JSON string, never ends the string and shows nothing outside it |
| Quote.UnescapeEscape | common/variables.go:13-15 | a JSON reader gets the value back, whatever follows it, if and only if each character is one that `%q` writes in a JSON way; otherwise it finds no string |
| Quote.UnsafeValues | common/variables.go:13-15 | a bell, a delete and a stray byte come out as something no JSON reader accepts |
| Quote.GoRoundTrip | common/variables.go:13-15 | read as a Go string, the escaped form gives back every text, invalid UTF-8 and unprintable characters included |
| Values.AtoiItoa | common/variables.go:172 | every 64-bit index written in decimal reads back as itself |
| Numerals.AtoiExactly | common/variables.go:172-175 | the index segments are exactly the 64-bit numbers in decimal, with a sign and leading zeros if any |
| Values.SplitJoin | common/variables.go:67 | the segments of a path hold no dot and, joined by dots, are the path |
| Values.JoinSplit | common/variables.go:67 | segments without dots come back from the dotted path |
| Paths.ResolveTemplatePath | common/variables.go:151-182 | the loop finds exactly what the recursive lookup finds, error cases included |
| Paths.ResolveExactly | common/variables.go:151-182 | the lookup finds a value if and only if it lies under the other along the path: key by key and index by index, no segment empty, JSON texts read on the way |
| Paths.KeySegment | common/variables.go:165-170 | a key leads to its value, a key that is not there to nothing |
| Paths.NothingBelow | common/variables.go:177-179 | a path leads nowhere from a scalar that is no text |
| Paths.ResolveComposes | common/variables.go:151-182 | looking up p and then q is looking up p followed by q |
| Paths.EmptySegmentFails | common/variables.go:154-156 | a path with an empty segment leads nowhere |
| Paths.IndexSegment | common/variables.go:171-176 | the decimal form of an index selects that element |
| Paths.FrozenResolve | common/variables.go:157-163 | a path leads to the same place when any containers on any level are kept as JSON text instead |
| Paths.ResolveThroughText | common/variables.go:151-192 | a non-empty path finds the same in a container and in its JSON text |
| Template.PathRun | common/variables.go:62-65 | the path is the longest run of path bytes |
| Template.RenderTemplate | common/variables.go:28-109 | the scanner's output is the one-pass rendering of the template |
| TemplateLaws.ByteClasses | common/variables.go:112-134 | the three byte classes, spelled out |
| TemplateLaws.CapableExactly | common/variables.go:138-148 | path-capable are containers and the texts that open a bracket after white space |
| TemplateLaws.ShownExactly | common/variables.go:195-226 | a value is written as the one text that shows it: nothing for nil, a string itself, what a reader takes for that truth value, number or integer, JSON for anything else |
| TemplateLaws.RenderVariable | common/variables.go:58-106 | a template that is one placeholder becomes the escaped text that shows its variable, whatever its kind |
| TemplateLaws.RenderPath | common/variables.go:60-77 | with a path it becomes the escaped text that shows the value the path leads to |
| TemplateLaws.RouteIsSplit | common/variables.go:66-74 | a dotted text has a value exactly when some dot-free segments that join to it lead to one |
| TemplateLaws.PieceIsExplained | common/variables.go:42-108 | the front of a text has exactly one reading, stated without the scanner: a byte copied, or the longest defined name with its path, its container rule and its identifier guard; the scanner takes that reading |
| TemplateLaws.RenderTiles | common/variables.go:42-108 | the output is the concatenation of the pieces of a one-pass reading of the template: template slices and escaped values, inserted text never read again |
| TemplateLaws.TilingIsDetermined | common/variables.go:42-108 | no other reading, and no other output, is one |
| TemplateLaws.UndefinedStays | common/variables.go:56-60 | text in which no `$` is followed by a defined name comes out unchanged |
| TemplateStructure.StructureKeptExactly | common/variables.go:22-109 | for names without quote or backslash: a JSON lexer ends in the same state on output and template and sees the same text outside strings, for all values, if and only if every placeholder the scanner meets and the identifier guard does not stop stands inside a JSON string and not after a backslash |
| TemplateStructure.LettersShow | common/variables.go:88-105 | at the first placeholder that does not, a value of letters, after a quote where a backslash precedes, shows up outside strings |
| TemplateStructure.StructureKept | common/variables.go:22-27 | a condition that looks at every `$` with a defined name alike: if they all lie inside JSON strings, not after a backslash, structure is kept for all values |
| TemplateStructure.BackslashBreaksStructure | common/variables.go:13-15 | a placeholder right after a backslash does let a value end its string |
| TemplateLaws.RenderedStringReads | common/variables.go:27-109 | inside a string without escapes, a JSON reader sees the template with the values themselves in place, and fails exactly when an inserted value is not JSON-safe |
| TemplateLaws.RenderConcat | common/variables.go:43-134 | render(a + b) = render(a) + render(b) when b starts with a byte in no name that is not a path byte |
| TemplateLaws.RenderThroughText | common/variables.go:151-192 | a template whose containers are passed as JSON text renders the same |
| Substitution.ReplaceInString | model/webhook.go:104-108 | the passes over one string leaf, in order |
| SubstitutionLaws.PassReplacesAll | model/webhook.go:105-107 | a pass puts the value in for the `$` and the name wherever they stand, and leaves the rest |
| SubstitutionLaws.SubstituteSpells | model/webhook.go:82-108 | the substitution is the left-to-right reading of the text, longest names first, with the values put in |
| Substitution.SortedWebhookVariables | model/webhook.go:83-99 | the pairs are the variables, each once with its value, longest name first |
| Substitution.PairsAreDetermined | model/webhook.go:83-99 | the pairs do not depend on the iteration order of the map |
| SubstitutionLaws.PassMerges | model/webhook.go:105-107 | where no name can be completed, one pass followed by the others at once is all at once |
| SubstitutionLaws.SafePass | model/webhook.go:105-107 | after a pass no name can be completed for the later ones either |
| SubstitutionLaws.PassesMerge | model/webhook.go:104-108 | where no name can be completed, all passes are one |
| SubstitutionExact.SequentialExactly | model/webhook.go:82-108 | for non-empty names without `$`: longest-first passes equal one left-to-right longest-match substitution, for all values without `$`, if and only if there are no two successive `$` such that the text between them properly begins a name tried after the one that is replaced at the second |
| SubstitutionExact.PassesPutInMore | model/webhook.go:105-107 | at the earliest name that can be completed, with a long value for it, the passes make a longer text than the substitution |
| SubstitutionExact.SequentialIsSimultaneous | model/webhook.go:82-108 | a condition that does not depend on the order of the names: a byte in no name separates any `$` from the next |
| SubstitutionAll.SequentialForAllValues | model/webhook.go:82-108 | for non-empty names without `$`: the passes equal the substitution for all values whatever, if and only if at every `$` of the text the longest name that fits, if any, is the one tried last |
| SubstitutionAll.PassesCallMore | model/webhook.go:105-107 | on any other text, with values that call for the last name and a long value for that one, the passes make a longer text than the substitution |
| SubstitutionExact.ValueIsReadAgain | model/webhook.go:105-107 | the shortest such text: an inserted `$` is read again |
| SubstitutionExact.ValueCompletesName | model/webhook.go:105-107 | a text where a value completes an earlier name |
| Webhook.ReplaceWebhookVariables | model/webhook.go:102-122 | on a heap tree without sharing: strings come back replaced, maps and slices are changed in place and come back as the same reference, nothing outside the tree changes |
| Webhook.ReplacedExactly | model/webhook.go:102-122 | the result is the one value in which, at every place of the tree, a string has had the passes made over it and nothing else is changed |
| Webhook.LeafIsSubstituted | model/webhook.go:102-122 | a string of the tree that meets either exact condition comes out with all variables put in at once |
| Webhook.Node.ReplaceMembers | model/webhook.go:109-118 | after the loop over a map or slice the node stands for the substituted value, with the same nodes |
| Webhook.Node.ReplaceField | model/webhook.go:110-112 | one map entry is replaced, the others are untouched |
| Webhook.Node.ReplaceElement | model/webhook.go:115-117 | one element is replaced, the others are untouched |
| Webhook.ShapeKept | model/webhook.go:102-122 | same keys, lengths and order at every level, the same leaves except for strings |
| Webhook.RenderWebhookConstructRule | model/webhook.go:50-80 | fails exactly when the rule does not decode to an object or null; otherwise each of the five fields has the value of its key, and Extra those of all other keys, with the passes made over their strings; missing fields are nil, and Extra is there only when it has keys |
| Webhook.RuleStringShows | model/webhook.go:27-40 | a field's text is the string itself, nothing for nil, and JSON for anything else, empty if there is none |
| Webhook.PathAfterReplacement | model/webhook.go:102-122 | a path through containers finds in the substituted value the substituted form of what it finds in the rule |
| Webhook.PathInMessage | model/webhook.go:27-40 | the same when the value travels as message text |
| DeliveryLaws.RunKeepsInv | controller/message.go:198-247 | the invariants hold after every run of handlers, senders, loader, deletions, crashes and restarts |
| DeliveryRows.QueuedIsNotLost | channel/message-queue.go:21-63 | from the moment a row says AsyncPending, in every continuation that does not delete it, crashes or not: the row is there; while it says so, some part of the system still has to deal with the message or a sender's database call for it failed since the last crash; it says something else only after a sender that finished the message wrote it |
| DeliveryRows.RowOutlives | model/message.go:137-154 | a row is there after every step but its deletion, a crash included, and has the status the step writes to it or else the one it had |
| DeliveryRows.NewRow | model/message.go:137-144 | rows come from inserts only, as Pending and with an id never used before |
| DeliveryRows.QueueInOrder | channel/message-queue.go:21-46 | first in, first out; only a crash empties the queue |
| DeliveryLaws.NoMessageLost | channel/message-queue.go:21-63 | an AsyncPending row is queued, held by a sender, about to be enqueued by a handler, still to be loaded, or awaits the loader's query, unless a sender's database call for it failed; at rest only the last remains |
| DeliveryLaws.DeliveryAccounting | controller/message.go:207-226 | per process life the enqueues of an id are its queued, in-flight and finished occurrences; the queue holds at most 128; an id is enqueued at most twice, and twice only if its AsyncPending write came before the loader's query |
| DeliveryRows.EnqueuesAddUp | controller/message.go:207-226 | the same of the enqueues and finished turns counted step by step since the last crash; two enqueues only if the AsyncPending status was written before the loader's query |
| DeliveryLaws.FinalStaysFinal | channel/message-queue.go:43-63 | a row that is Sent or Failed is so ever after, or deleted, and its id is not given out again |
| DeliveryLaws.SentWasAccepted | channel/message-queue.go:51-58 | for a Sent row some send of it returned nil |
| DeliveryRows.SentWasReturned | channel/message-queue.go:51-58 | a row says Sent only if in some step a send of that message returned nil |
| DeliveryTwice.SentStaysExactly | channel/message-queue.go:43-63 | a row that says Sent goes on saying so, while it is there, over all continuations if and only if no send of it is still to come and none has failed unwritten |
| DeliveryTwice.EnqueuedTwiceExactly | controller/message.go:209-226 | an id of this process life is enqueued twice if and only if the loader enqueued it and its request is past its own enqueue; at rest, if and only if the loader enqueued it |
| DeliveryTwice.SentThenFailed | channel/message-queue.go:21-63 | a run in which one message is enqueued by its request and by the loader, is sent twice, and its row turns from Sent to Failed |
| DeliveryProgress.StepShrinks | channel/message-queue.go:21-63 | every step of handlers, loader and senders that does something lowers the work that is left, whether or not the database answers |
| DeliveryProgress.NeverStuck | channel/message-queue.go:43-63 | unless all is at rest some goroutine can move, a full queue notwithstanding |
| DeliveryProgress.EndsWithinWork | channel/message-queue.go:21-63 | without new requests, deletions or crashes at most that much work follows, whatever calls fail |
| DeliveryProgress.Drains | channel/message-queue.go:21-63 | from every reachable state the system can come to rest with no message left AsyncPending, except those whose sender's database call failed |
| DeliveryCode.Server.UpdateAndInsert | model/message.go:137-144 | a fresh id with a Pending row, or id 0 and no row |
| DeliveryCode.Server.UpdateStatus | model/message.go:146-149 | writes the status of an existing row and no other |
| DeliveryCode.Server.SaveAndSendMessage | controller/message.go:198-247 | when it returns nil, and that table and queue are as after the handler's steps, with a sender's turn before an enqueue that meets a full queue |
| DeliveryCode.StoredRequest | controller/message.go:209-246 | a request run on its own: its row and status for every outcome of insert, send and update, and its place in the queue |
| DeliveryCode.UnstoredRequest | controller/message.go:223-229 | a failed insert leaves no row, and an asynchronous message enqueues id 0 |
| DeliveryCode.Server.AsyncMessageSender | channel/message-queue.go:43-63 | one turn is the sender's four steps; it takes the head of the queue and writes Sent or Failed to its row if the database answers |
| DeliveryCode.SenderTurn | channel/message-queue.go:45-61 | the same of the four steps, whatever else is under way |
| DeliveryCode.Server.GetAsyncPendingMessageIds | model/message.go:83-86 | exactly the ids with status AsyncPending, each once |
| DeliveryCode.Server.LoadAsyncMessages | channel/message-queue.go:21-29 | enqueues those ids in order, as the loader's steps do, with a sender's turn whenever the queue is full; with room for all it appends them and touches nothing else |
| RateLimit.InMemoryRateLimiter.Request | common/rate-limit.go:45-70 | one request changes its key's queue as the step function says and no other key's; a new key with a negative limit panics, which serves nothing and stores nothing |
| RateLimit.InMemoryRateLimiter.ClearExpiredItems | common/rate-limit.go:30-40 | one sweep drops exactly the queues whose newest entry is too old |
| RateLimit.RedisRateLimiter.Request | middleware/rate-limit.go:16-60 | one request, in milliseconds with the difference cut to whole seconds, changes its key's list as the step function says and no other key's |
| RateLimitLaws.InMemoryRefines | common/rate-limit.go:28-70 | on every trace with a running clock the bounded queue decides as a limiter that remembers every admission, whatever sweeps happen |
| RateLimitLaws.InMemoryExact | common/rate-limit.go:20-70 | it does so on all traces if and only if the limit is negative, or at least one with no sweeper or a duration of at most the expiry plus one second |
| RateLimitLaws.ZeroAdmits | common/rate-limit.go:64-69 | with a limit of zero the first request is admitted in memory and refused by Redis |
| RateLimitLaws.KeysAreIndependent | common/rate-limit.go:28-70 | in a store serving all keys, each key sees the decisions of its own trace |
| RateLimitLaws.RedisRefines | middleware/rate-limit.go:27-59 | the Redis list decides as the full history in milliseconds on every trace, including expiry after the last touch |
| RateLimitLaws.RedisExact | middleware/rate-limit.go:27-59 | it does so on all traces if and only if the limit is below one, the duration is not positive, or it is at most the expiry |
| RateLimitLaws.TouchedByEveryRequest | middleware/rate-limit.go:27-59 | every request, refused or not, puts the expiry of its key off |
| RateLimitWindows.ReferenceTimes | common/rate-limit.go:52-68 | the full history is the list of the times of the admitted requests |
| RateLimitWindows.WindowBound | common/rate-limit.go:44-70 | no half-open window of the duration's length holds more than the limit of the requests admitted in memory |
| RateLimitWindows.RedisWindowBound | middleware/rate-limit.go:27-59 | the same of the requests Redis admits, to the millisecond |
| RateLimitWindows.NextAdmission | common/rate-limit.go:52-63 | after any trace the in-memory limiter admits the next request if and only if it admitted fewer than the limit so far or the limit-th latest admission is the duration old; rejections play no part |
| RateLimitWindows.RedisNextAdmission | middleware/rate-limit.go:27-59 | the same of Redis, to the millisecond |
| RateLimitClocks.RedisMatchesInMemory | middleware/rate-limit.go:27-59 | on one clock in milliseconds the two admit the same requests on every trace whose times lie the same way off a full second |
| RateLimitClocks.WitnessLateBurst | common/rate-limit.go:50-56 | a burst late in a second is followed by an admission in memory that Redis refuses |
| RateLimitClocks.ClocksExact | middleware/rate-limit.go:31-59 | on all traces the two admit the same requests if and only if the limit is negative, or at least one with a duration that is not positive |
| Telegram.PlainSplit | channel/telegram.go:81-94 | the nearest position at or before idx that starts a character |
| Telegram.MarkdownNearestValidSplit | channel/telegram.go:96-110 | the downward loop returns the position after a newline at or before idx with no other newline between it and idx, or idx if there is no newline up to it |
| Telegram.GetNextIdx | channel/telegram.go:43-49 | the end of the next chunk, in both modes |
| Telegram.SendTelegramMessage | channel/telegram.go:26-71 | posts the chunks in order until one is refused; without a refusal it has posted all of them |
| Telegram.StuckAtTrap | channel/telegram.go:103-107 | an iteration fails to advance if and only if it stands at a trap: in Markdown, right after a newline that begins a line of more than 4096 bytes |
| Telegram.TerminatesExactly | channel/telegram.go:42-51 | the loop reaches the end of the text if and only if the text holds no trap |
| Telegram.ValidTerminates | channel/telegram.go:42-94 | on valid UTF-8 the plain-text loop ends |
| Telegram.LongLineNeverEnds | channel/telegram.go:103-107 | in Markdown the loop never reaches the end of a text with more than 4096 bytes between a newline and the next |
| Telegram.ShortestLongLine | channel/telegram.go:103-107 | a newline and 4097 letters are such a text |
| Telegram.ContinuationsNeverEnd | channel/telegram.go:81-94 | nor in plain text the end of one with 4096 continuation bytes in a row after some other byte |
| Telegram.ContinuationsAtTheStart | channel/telegram.go:81-94 | at the start of a text as many do no harm |
| Telegram.OverlongChunk | channel/telegram.go:103-107 | 4096 bytes and a newline go out as one chunk of 4097 bytes |
| Telegram.ChunksReassemble | channel/telegram.go:42-51 | the chunks concatenate to the text |
| Telegram.TurnOf | channel/telegram.go:42-51 | every chunk is non-empty and is the slice its iteration cut, and only the last one reaches the end |
| Telegram.PlainChunk | channel/telegram.go:81-94 | on valid UTF-8 every plain chunk is valid UTF-8 of at most 4096 bytes, and all but the last have at least 4093 |
| Telegram.MarkdownChunk | channel/telegram.go:96-110 | Markdown chunks have at most 4097 bytes, 4097 exactly when the byte at the cut is a newline, and all but the last end in a newline if the first line fits |
| Telegram.MarkdownChunkIsLongest | channel/telegram.go:96-110 | a Markdown chunk is as long as whole lines allow: no line ends between its end and its cut, and where no line ends before the cut it ends there |
| Telegram.FewestLineChunks | channel/telegram.go:42-110 | no split between lines, into pieces of at most 4096 bytes or one more for a newline, has fewer pieces |
| Telegram.MarkdownChunksValid | channel/telegram.go:96-110 | on valid UTF-8 all Markdown chunks are valid UTF-8 if and only if no multiple of 4096 bytes, in a first line that reaches beyond it, falls inside a character |
| Telegram.GreedyStaysAhead | channel/telegram.go:42-94 | after k chunks the loop is at least as far as any split into k valid pieces |
| Telegram.FewestChunks | channel/telegram.go:42-94 | no split into valid UTF-8 pieces of at most 4096 bytes has fewer pieces |
| MessagesTable.MessagesTable.StartLoad | web/src/components/MessagesTable.jsx:92-95 | a load takes the next number |
| MessagesTable.MessagesTable.FinishLoad | web/src/components/MessagesTable.jsx:96-115 | only the latest load is applied: its first page replaces the list, a later one adds the rows not known yet |
| MessagesTable.MessagesTable.FinishDelete | web/src/components/MessagesTable.jsx:234-246 | a successful delete drops the row and starts a reload with a new number, a failed one changes nothing |
| MessagesTable.MessagesTable.InsertNewMessage | web/src/components/MessagesTable.jsx:285-296 | a pushed message replaces the row with its id where it is, or comes in front |
| MessagesTable.InsertedExactly | web/src/components/MessagesTable.jsx:285-296 | the pushed message takes the place of the first row with its id or comes in front; every other row stays where it is |
| MessagesTable.LoadedExactly | web/src/components/MessagesTable.jsx:101-111 | the first page is the list; of a later one the rows not shown yet follow in order |
| MessagesCode.Load | web/src/components/MessagesTable.jsx:92-95 | the handler does what its step in a run says |
| MessagesCode.Loaded | web/src/components/MessagesTable.jsx:96-115 | the same of the response |
| MessagesCode.Deleted | web/src/components/MessagesTable.jsx:234-246 | the same of an acknowledged or refused deletion |
| MessagesCode.Pushed | web/src/components/MessagesTable.jsx:285-296 | the same of a pushed message |
| MessagesCode.LatestPageShows | web/src/components/MessagesTable.jsx:96-104 | the first page of the latest load is what the list shows |
| MessagesRuns.RunKeepsInv | web/src/components/MessagesTable.jsx:88-115 | the invariants hold in every interleaving |
| MessagesRuns.ListNeverRepeats | web/src/components/MessagesTable.jsx:101-111 | the list never shows two rows with one id |
| MessagesRuns.AcknowledgedIsGone | web/src/components/MessagesTable.jsx:236-241 | an acknowledged deletion takes the row off the list |
| MessagesRuns.StepKeepsGone | web/src/components/MessagesTable.jsx:88-115 | a step shows an acknowledged deleted row again if and only if it is a push of that message or a search result with it |
| MessagesRuns.DeletedStaysGone | web/src/components/MessagesTable.jsx:232-246 | over any continuation without such a step the row stays off the list |
| MessagesRuns.OlderRequestIsDropped | web/src/components/MessagesTable.jsx:93-99 | a list request made before a deletion's reload is never applied after it |
| MessagesRuns.SearchBringsBack | web/src/components/MessagesTable.jsx:248-265 | a run in which a search response brings a deleted row back |
| TokenStore.Store.Fill | channel/token-store.go:73-76 | every loaded item is stored under its own key |
| TokenStore.Store.Snapshot | channel/token-store.go:80-83 | the snapshot is the map |
| TokenStore.Store.Merge | channel/token-store.go:90-95 | keys of the map that the snapshot has take the snapshot's item; no key comes or goes |
| TokenStore.Store.Add | channel/token-store.go:104-112 | an incomplete item changes nothing; any other takes the token the service answers, if it does, and is stored under its key |
| TokenStore.Store.Remove | channel/token-store.go:114-118 | the key is dropped, nothing else changes |
| TokenStoreRuns.RunKeepsInv | channel/token-store.go:72-118 | in every interleaving each entry sits under its own key |
| TokenStoreRuns.KeysAreThoseLeft | channel/token-store.go:89-95 | the keys are those that fills, adds and removes alone leave: the refresh cycle resurrects none and loses none |
| TokenStoreRuns.MergeLeavesFresh | channel/token-store.go:85-95 | a merge keeps the keys, and every item then stored was refreshed or its key was inserted since the snapshot |
| TokenStoreRuns.FillHoldsLast | channel/token-store.go:73-76 | of the loaded items each key holds the last one with that key |
| TokenStoreRuns.AddedIsHeld | channel/token-store.go:104-118 | an added item is held until the next merge or the next step that concerns its key |
| TokenStoreRuns.RecordsAreRight | channel/token-store.go:79-95 | what counts as refreshed or inserted since the snapshot was so in some step |
| TokenStoreRuns.ItemAfterMerge | channel/token-store.go:79-95 | after a merge a key known to the snapshot holds the snapshot's item, any other the one last put there; a key keeps its item if and only if the snapshot did not know the key or had that item |
| TokenStoreRuns.NewItemIsLost | channel/token-store.go:79-118 | a run in which an item added during a refresh gives way to the older one |
| Verification.SlotInjective | common/verification.go:15-18 | the two purposes never share a slot |
| Verification.VerificationStore.RegisterVerificationCodeWithKey | common/verification.go:34-44 | the code is stored with its time, and a map of more than ten entries is purged |
| Verification.VerificationStore.VerifyCodeWithKey | common/verification.go:46-55 | accepts exactly a stored, unexpired, equal code |
| Verification.VerificationStore.DeleteKey | common/verification.go:57-61 | drops that slot only |
| Verification.VerificationStore.RemoveExpiredPairs | common/verification.go:64-71 | drops exactly the expired entries |
| Verification.ExpiryIsTenMinutes | common/verification.go:51 | truncation to whole seconds leaves the limit at exactly ten minutes |
| Verification.RegisteredIsSmall | common/verification.go:37-43 | a registration stores its code; a map of at most ten entries loses none, a larger one exactly those of ten minutes and more |
| Verification.MapTracks | common/verification.go:34-71 | what the map knows of a slot after any trace of registrations, deletions and purges |
| Verification.VerifiesLatest | common/verification.go:34-71 | a code verifies if and only if the latest operation on that purpose and key registered it under ten minutes ago, however many purges ran |

## Left out

- HTTP, SMTP, OAuth, sessions, the WebSocket and SSE hubs and the other channel senders: a send is a step that succeeds or fails.
- GORM and SQL: tables are maps from ids to statuses; a new row gets an id never used before, and messages enter with Id 0.
- The JSON codec and `strconv.IsPrint`: functions given as parameters. Laws that depend on the codec assume, for the value at hand, that the decoder inverts the encoder.
- A JSON value that is no object or null, decoded into a Go map: the model takes it to be an error.
- Quote.UnescapeEscape: the JSON reader does not read escaped surrogates, which `%q` never writes.
- TemplateStructure.StructureKeptExactly: names with a quote or a backslash are left out; the decoder is taken to refuse a run of letters and an open string, which are no JSON.
- TemplateStructure.StructureKept: a simpler condition in one direction; the exact one is `TemplateStructure.StructureKeptExactly`.
- SubstitutionExact.SequentialExactly: is for values without `$`; `SubstitutionAll.SequentialForAllValues` is for all. Empty names and names with `$` are left out.
- SubstitutionExact.SequentialIsSimultaneous: a simpler condition in one direction; the exact one is `SubstitutionExact.SequentialExactly`.
- Webhook.RenderWebhookConstructRule: assembles the rule on values; the update in place is modelled by `Webhook.ReplaceWebhookVariables`.
- DeliveryCode.Server.SaveAndSendMessage: of what goes on while it waits for room it has one turn of a sender; everything else is modelled in the step system.
- DeliveryCode.Server.AsyncMessageSender: is run from the moment there is a message in the queue; waiting for one is modelled in the step system.
- DeliveryCode.Server.LoadAsyncMessages: a query that fails ends the process and is a crash in the step system; requests that come in meanwhile are modelled there too.
- The link, URL and message count that `saveAndSendMessage` sets, and the copy pushed to the user's browser.
- RateLimitClocks.RedisMatchesInMemory: covers the traces whose times share their milliseconds; `RateLimitClocks.ClocksExact` says when it holds of all traces.
- A request takes its time once; Redis commands of one request are not interleaved with those of another, and the times in its list are whole milliseconds.
- A Redis server that fails: the request is then refused with an error.
- Telegram.SendTelegramMessage: is for a text without a trap or a server that refuses some post; otherwise the loop does not end.
- Verification: codes are compared as given; generating them is left out.
- The read locks that guard writes in `channel/token-store.go`: each locked section is one step. Sharing counts (`IsShared`) and the construction of items from channels are left out.
- MessagesTable.MessagesTable.FinishLoad: the loading flag, page number and timers of the component are left out; a response that never comes, or fails, changes no row.
- In the message list, pages come from a server that answers with rows it stores, each once; which rows and in what order is left open. Sorting is any permutation.
- Option maps, role and token checks, the Lark message builder, group fan-out and unit formatting: one-branch facts.
