# POSRx core in Dafny

This project models two parts of POSRx, an Objective-C library of reactive
networking and scheduling helpers. It proves properties of both.

- **`POSSequentialTaskExecutor`** is an executor that runs at most
  `maxExecutingTasksCount` tasks at once. The default ceiling is 1.
  - A submitted task joins the back of a FIFO task queue, and the queue is
    drained at once. So the task starts as soon as a slot is free and every
    task queued before it has started.
  - `executePendingTasks` fills the free slots from the front of the queue.
  - When a task finishes, it leaves `executingTasks` and the freed slot is
    refilled.
  - `executingTasksCount` caches the length of `executingTasks`.
  - A signal emits each new count, and it replays the current count to every
    new subscriber.
- **`NSDictionary (POSRx)`** holds pure helpers over string dictionaries:
  - `posrx_merge:with:` merges two dictionaries. The target's entries win, and
    either argument may be nil.
  - `posrx_URLQueryUsingPercentEncoding:` builds the `&`-separated list of
    `key=value` items. Keys and values are optionally percent-encoded, as in
    section 2.1 of RFC 3986.
  - `posrx_URLQuery` is that query with escaping on. It yields a query
    component, as in section 3.4 of RFC 3986.
  - `posrx_URLQueryBody` gives the query's UTF-8 octets, as defined by RFC 3629.

Modules:

| file | module | contents |
|---|---|---|
| `wrappers.dfy` | `Wrappers` | `Option`, the stand-in for a nullable reference |
| `sequences.dfy` | `Sequences` | distinctness (`NoDuplicates`) and removal of one element (`Erase`) |
| `admission.dfy` | `Admission` | the executor's admission policy as functions on a `Schedule` value, with lemmas |
| `scheduling.dfy` | `Scheduling` | the classes `TaskQueue` and `SequentialTaskExecutor`; each mutating method is proved to follow `Admission` |
| `utf8.dfy` | `Utf8` | UTF-8 encoding of strings into octets |
| `percent_encoding.dfy` | `PercentEncoding` | percent-encoding and decoding, and their round trip |
| `query_strings.dfy` | `QueryStrings` | joining on a separator, splitting on it, and the round trip between the two |
| `dictionaries.dfy` | `Dictionaries` | merge, the query encoders and the query body |

The executor keeps its bookkeeping in fields that its methods update in place.
- Its queue is a `TaskQueue` object, handed to it at construction.
- The count signal is the ghost log `countLog`: every value the signal
  emitted, in order. Its last element is the value a new subscriber receives.
- The hand-off to the underlying executor is the ghost log `startedTasks`.
- `Valid()` ties the cached count to `executingTasks`. It also requires that
  the last logged count equals the cached count, and that no task is tracked
  twice.
- `Snapshot()` views the executor's state as an `Admission.Schedule`. Each
  mutating method's `ensures` gives the new snapshot as a function of the old
  one: `Submit`, `Drain` or `Complete`. The lemmas about those functions state
  what the header promises.

## Model

| member | source | states |
|---|---|---|
| Scheduling.SequentialTaskExecutor.constructor | POSRx/Scheduling/POSSequentialTaskExecutor.h:19-21 | a new executor has a ceiling of 1 (the documented default), no executing tasks, count 0, a count log of `[0]`, and the queue it was given |
| Scheduling.SequentialTaskExecutor.SetMaxExecutingTasksCount | POSRx/Scheduling/POSSequentialTaskExecutor.h:19-21 | setting the ceiling changes only the ceiling: no task is started or preempted, the queue is untouched and no count is emitted |
| Scheduling.SequentialTaskExecutor.ExecutingTasksCount | POSRx/Scheduling/POSSequentialTaskExecutor.h:23-25 | the cached count equals the number of executing tasks |
| Scheduling.SequentialTaskExecutor.ReplayedCount | POSRx/Scheduling/POSSequentialTaskExecutor.h:27-28 | the value the count signal replays to a new subscriber (the last logged value) is the current number of executing tasks |
| Scheduling.SequentialTaskExecutor.ExecutingTasks | POSRx/Scheduling/POSSequentialTaskExecutor.h:30-31 | the executing tasks are returned in start order, and their count is the cached count |
| Scheduling.SequentialTaskExecutor.ExecutePendingTasks | POSRx/Scheduling/POSSequentialTaskExecutor.h:33-34 | the new state is `Drain` of the old one under the unchanged ceiling; the signal logs each count from the old count up to the new one; the admitted tasks are handed to the underlying executor in queue order |
| Scheduling.SequentialTaskExecutor.SubmitTask | POSRx/Scheduling/POSSequentialTaskExecutor.h:14-17 | the new state is `Submit` of the old one: the task is queued behind all waiting work and the queue is drained; every start is logged on the signal and recorded as handed off; invariants are kept |
| Scheduling.SequentialTaskExecutor.CompleteTask | POSRx/Scheduling/POSSequentialTaskExecutor.h:14-17 | the new state is `Complete` of the old one; for an executing task the signal logs the lowered count and then each count reached while refilling, and the refilled tasks are recorded as handed off in queue order; for any other task nothing changes |
| Scheduling.SequentialTaskExecutor.Admit | POSRx/Scheduling/POSSequentialTaskExecutor.h:33-34 | admitting one task appends it to the executing tasks, raises the cached count by one, emits the new count on the signal and hands the task to the underlying executor; the ceiling is unchanged |
| Scheduling.TaskQueue.Enqueue | POSRx/Scheduling/POSSequentialTaskExecutor.h:10 | a submitted task goes to the back of the queue |
| Scheduling.TaskQueue.DequeueNext | POSRx/Scheduling/POSSequentialTaskExecutor.h:10 | an empty queue yields no task and stays empty; otherwise the front task is removed and returned |
| Scheduling.TaskQueue.Remove | POSRx/Scheduling/POSSequentialTaskExecutor.h:10 | withdrawing a task removes exactly that task, and the result reports whether it was waiting |
| Scheduling.TaskQueue.Size | POSRx/Scheduling/POSSequentialTaskExecutor.h:10 | the number of waiting tasks |
| Admission.Drain | POSRx/Scheduling/POSSequentialTaskExecutor.h:33-34 | draining loses and duplicates no task; it stops only when the queue is empty or the ceiling is reached; a schedule within the ceiling stays within it |
| Admission.DrainAdmitsFront | POSRx/Scheduling/POSSequentialTaskExecutor.h:33-34 | draining starts exactly as many front tasks of the queue as there are free slots, in queue order, and leaves the rest queued in order |
| Admission.DrainAdmitsPrefix | POSRx/Scheduling/POSSequentialTaskExecutor.h:33-34 | starting the first `k` queued tasks is what draining does, whenever `k` empties the queue or reaches the ceiling without passing it |
| Admission.DrainIsNoOpIff | POSRx/Scheduling/POSSequentialTaskExecutor.h:33-34 | draining leaves a schedule unchanged if and only if the queue is empty or no slot is free |
| Admission.DrainIdempotent | POSRx/Scheduling/POSSequentialTaskExecutor.h:33-34 | draining twice equals draining once |
| Admission.DrainKeepsTasks | POSRx/Scheduling/POSSequentialTaskExecutor.h:33-34 | the multiset of tracked tasks is preserved, the queue keeps its tail in order, and distinctness is preserved |
| Admission.DrainFillsFreeSlots | POSRx/Scheduling/POSSequentialTaskExecutor.h:19-21 | after the ceiling is raised, draining brings the executing count to the new ceiling, or to the total number of tasks when there are fewer |
| Admission.Rising | POSRx/Scheduling/POSSequentialTaskExecutor.h:27-28 | the values the signal emits while the count climbs: one per admission, ending at the new count |
| Admission.RisingCountsByOne | POSRx/Scheduling/POSSequentialTaskExecutor.h:27-28 | each emitted value is one more than the previous one, so no intermediate count is skipped |
| Admission.SubmitPlacesTaskOnce | POSRx/Scheduling/POSSequentialTaskExecutor.h:14-17 | a fresh task ends up either executing or queued, never both; it is tracked after every task already tracked, so it never overtakes queued work; it executes exactly when it fits below the ceiling behind all executing and queued tasks; the tracked multiset grows by exactly that task; distinctness and the ceiling are kept |
| Admission.SubmitOnDrainedSchedule | POSRx/Scheduling/POSSequentialTaskExecutor.h:14-17 | on a drained executor, submission starts the task at once when a slot is free and queues it otherwise |
| Admission.SubmitBehindQueuedWork | POSRx/Scheduling/POSSequentialTaskExecutor.h:14-17 | with B waiting after the ceiling is raised to 2, submitting C starts B and queues C; with a queue handed over holding B, submitting A starts B and queues A |
| Admission.CompleteReleasesTask | POSRx/Scheduling/POSSequentialTaskExecutor.h:23-25 | completing an executing task removes exactly that task from the tracked multiset and keeps the ceiling and distinctness; with an empty queue the executing tasks lose only that task |
| Admission.CompleteLowersCount | POSRx/Scheduling/POSSequentialTaskExecutor.h:23-25 | with nothing queued, a completion lowers the count by exactly one |
| Admission.CompleteUnknownIsNoOp | POSRx/Scheduling/POSSequentialTaskExecutor.h:14-17 | completing a task that is not executing changes nothing |
| Admission.CompleteTwiceIsOnce | POSRx/Scheduling/POSSequentialTaskExecutor.h:14-17 | a repeated completion signal from the same task is ignored |
| Admission.SubmitThreeUnderOne | POSRx/Scheduling/POSSequentialTaskExecutor.h:19-21 | under the default ceiling of 1, submitting A, B and C starts A and queues B and C behind it, in order |
| Admission.SequentialRun | POSRx/Scheduling/POSSequentialTaskExecutor.h:19-21 | under the default ceiling of 1, tasks A, B and C run one at a time in submission order |
| Admission.CancelWhileQueued | POSRx/Scheduling/POSSequentialTaskExecutor.h:10 | a task withdrawn from the queue never starts; the task behind it runs next |
| Dictionaries.Merge | POSRx/Networking/Categories/NSDictionary+POSRx.h:15-17 | the result's keys are the union of both key sets; a target key keeps the target's value and a source-only key keeps the source's value; the result is nil only when both arguments are |
| Dictionaries.MergeWithNothing | POSRx/Networking/Categories/NSDictionary+POSRx.h:16-17 | merging with a nil or empty dictionary gives the other argument's contents |
| Dictionaries.MergeIdempotent | POSRx/Networking/Categories/NSDictionary+POSRx.h:15-17 | merging the same target again changes nothing, and a dictionary merged with itself is itself |
| Dictionaries.URLQueryUsingPercentEncoding | POSRx/Networking/Categories/NSDictionary+POSRx.h:31-32 | the `&`-join of one `key=value` item per entry; it is empty if and only if the dictionary is |
| Dictionaries.URLQuery | POSRx/Networking/Categories/NSDictionary+POSRx.h:27-29 | the query with escaping on; it holds only unreserved characters, `%`, `&` and `=` |
| Dictionaries.QueryRoundTrip | POSRx/Networking/Categories/NSDictionary+POSRx.h:27-29 | splitting the escaped query on `&` and `=` and percent-decoding gives back every entry, in enumeration order, as the UTF-8 octets of its key and value |
| Dictionaries.QuerySeparators | POSRx/Networking/Categories/NSDictionary+POSRx.h:27-29 | a dictionary with n ≥ 1 entries yields an escaped query with exactly n − 1 `&` separators |
| Dictionaries.EscapingUnreservedIsIdentity | POSRx/Networking/Categories/NSDictionary+POSRx.h:31-32 | when no key or value needs escaping, the escaped and unescaped queries are the same string |
| Dictionaries.URLQueryBody | POSRx/Networking/Categories/NSDictionary+POSRx.h:19-21 | the UTF-8 octets of the query: never fewer octets than characters, and exactly as many if and only if the query is ASCII |
| Dictionaries.BodyOfUnreservedEntries | POSRx/Networking/Categories/NSDictionary+POSRx.h:19-21 | when nothing needs escaping, the body is also the UTF-8 of the escaped query, one octet per character |
| PercentEncoding.Encode | POSRx/Networking/Categories/NSDictionary+POSRx.h:27-29 | an encoded key or value holds only unreserved characters and `%`, so it has no `&` or `=`; it is as long as its input if and only if nothing needed escaping |
| PercentEncoding.EncodeUnreservedIsIdentity | POSRx/Networking/Categories/NSDictionary+POSRx.h:31-32 | a string of unreserved characters encodes to itself |
| PercentEncoding.DecodeEncode | POSRx/Networking/Categories/NSDictionary+POSRx.h:27-29 | decoding an encoded string gives exactly the UTF-8 octets of the original |
| Utf8.EncodeScalar | POSRx/Networking/Categories/NSDictionary+POSRx.h:19-21 | a character encodes to 1 to 4 octets; the lead octet's range gives the length, and every later octet is a continuation octet; ASCII stays one octet of the same value |
| Utf8.Encode | POSRx/Networking/Categories/NSDictionary+POSRx.h:19-21 | a string encodes to at least as many octets as it has characters, and to exactly as many if and only if it is ASCII |
| Utf8.EncodeAppend | POSRx/Networking/Categories/NSDictionary+POSRx.h:19-21 | encoding distributes over concatenation |
| QueryStrings.Join | POSRx/Networking/Categories/NSDictionary+POSRx.h:31-32 | the `&`-concatenation: separator-free parts give one separator fewer than there are parts, and the result is empty only for no parts or a single empty part |
| QueryStrings.Split | POSRx/Networking/Categories/NSDictionary+POSRx.h:19-20 | splitting yields at least one part, none holding the separator, and joining the parts gives back the string |
| QueryStrings.SplitJoin | POSRx/Networking/Categories/NSDictionary+POSRx.h:27-29 | splitting a join of separator-free parts recovers the parts |
| QueryStrings.SplitCountsSeparators | POSRx/Networking/Categories/NSDictionary+POSRx.h:27-29 | a string splits into one more part than it has separators |

## Left out

- `posrx_URLJSONBody` (NSDictionary+POSRx.h:23-25) is not modelled. It wraps the platform's JSON serializer, which is not part of this model.
- NSObject+POSRx.h is not modelled. It is an NSURLSession task adapter made of handler properties.
- The two initialisers (POSSequentialTaskExecutor.h:36-40) become one constructor that takes the queue. They differ only in how the underlying executor is obtained, and that executor is reduced to the ghost log `startedTasks`.
- The ReactiveCocoa signal and scheduler are not modelled. The signal becomes the ghost log `countLog`, and nothing is dispatched asynchronously.
- Tasks are never run. Completion is the explicit call `CompleteTask`.
- Thread safety is not modelled. Everything happens sequentially.
- POSTask.h and POSTaskQueue.h are not part of this model. The queue is modelled as a FIFO with removal of a waiting task.
- Scheduling.SequentialTaskExecutor.SubmitTask: requires the task to be tracked by the executor nowhere yet. Submitting the same task object twice is not modelled.
- The header states only the concurrency limit, not the order of submission. The model enqueues every submitted task and then drains the queue, so no task overtakes queued work. `Admission.SubmitOnDrainedSchedule` shows that on a drained executor this starts the task at once exactly when a slot is free.
- `maxExecutingTasksCount` is an unbounded `int`. The original is an NSInteger, and no arithmetic on it can overflow in the model.
- The original compares the signed NSInteger ceiling with the unsigned NSUInteger count. In C, such a comparison converts a negative ceiling to a huge unsigned value. This signed/unsigned conversion is not modelled: the model compares mathematical integers. That a ceiling of 0 or less stops all admissions is therefore the model's choice; the original's behaviour there depends on code that is not part of this model.
- Dictionaries are `map<string, string>`. Only string keys and values are modelled; an NSDictionary may hold objects of other kinds.
- NSDictionary enumeration order is unspecified. Every query encoder therefore takes the order as a parameter `order` that lists each key once.
- Dictionaries.URLQueryBody: the body is the UTF-8 of the query with escaping off. The header documents only `posrx_URLQuery` as percent-escaped. `Dictionaries.BodyOfUnreservedEntries` relates the two forms.
- PercentEncoding.Encode escapes every character outside the unreserved set of section 2.3 of RFC 3986. The platform's escaping character set may leave a few more characters unescaped.
- Unicode normalisation is not modelled, and characters are Dafny's `char`. A character encodes to UTF-8 by its code point.
