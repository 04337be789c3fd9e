# scm-bot work-item lifecycle, modelled in Dafny

scm-bot watches the trending list of a forum. It keeps candidate post IDs in two Redis sorted
sets: `"poi"` for pending posts and `"processed_poi"` for posts already handled, scored by a
cooldown deadline. A consumer takes one post at a time and runs the workflow
fetch → filter → generate a reply with a chat model → publish the reply. It then records the ID
in `"processed_poi"` with score now + 86400. A reaper periodically drops every member whose
score has passed.

This project models that lifecycle and proves its properties:

- `wrappers.dfy`: `Option` and `Result`.
- `decimal.dfy`: the Rust text operations the IDs go through.
  - `str::trim`, with the Unicode White_Space set.
  - `u32::from_str`: an optional leading `+`, at least one ASCII digit, and overflow checked
    digit by digit from left to right.
  - `u32::to_string`.
- `poi.dfy`: `get_poi` as the class `Storage`, with the fields `token`, `poi` and
  `processedPoi`.
  - The method `GetPoi` runs the admission loop over the listed entries.
  - It is proved against the function `AdmitAll`; lemmas give its properties (membership, no
    duplicates, order of first occurrence, idempotence).
- `sorted_set.dfy`: a Redis sorted set as a map from member text to score, and the class
  `Connection` holding the contents of the two sets.
  - It has three commands: ZPOPMIN with count 1, ZADD and ZREMRANGEBYSCORE.
  - ZPOPMIN takes the lowest score; ties go to the smaller member in byte order, as in Redis.
    Byte order of UTF-8 text is the same as code-point order, so ties are ordered
    lexicographically by character.
  - A lemma shows that this member is unique, so the command is deterministic.
- `posts.dfy`: the pure parts of `consume_poi`: the filter, the prompt, choosing the reply
  text from the chat response, and reading the reply id in `post_reply`.
  - `Workflow` states which remote calls are made and in what order.
  - The ghost function `Consume` gives one whole invocation. The method `ConsumePoi` issues the
    Redis commands on a `Connection` and is proved equal to `Consume`.
- `reaper.dfy`: `remove_expr_element` as a method, proved equal to the function `Reap`.
  - Lemmas cover what a sweep keeps and removes, and the counts it logs.
  - One lemma joins the consumer and the reaper: a retired ID survives every reap before
    now + 86400 and is removed by any reap at or after it.

The outside world enters as parameters:

- the listing response;
- the post detail;
- the chat-completion reply;
- the publish response;
- for each Redis command, whether the server answered;
- each reading of the clock.

A panic ends an invocation with an `Aborted` outcome. The panics modelled are:

- an `unwrap` on a popped member that is not a `u32`;
- an `unwrap` on the first, logging-only detail request;
- indexing the first choice of an empty choice list;
- an `unwrap` on a reply id that is not a `u32`;
- an `unwrap` on a ZADD error, recorded as `RetirePanicked`.

The doc comment of `consume_poi` (src/utils/posts.rs:113-114) says the popped ID is then
added to `"processed_poi"`. The code does not always do so, and the model follows the code:

- Retirement into `"processed_poi"` is not unconditional. The filter returns before the
  retirement step (src/utils/posts.rs:139-142). A panic also ends the task before it. Only an
  invocation that reaches src/utils/posts.rs:176 retires its ID. `ConsumeFiltered` and
  `ConsumeRetires` state this.
- The member written at retirement is `id.to_string()` of the parsed ID, not the popped text.
  A popped `"07"` is retired as `"7"` (`SameIdDifferentText`).
- The reaper removes the score range 0..now, so a member with a negative score is never
  reaped (`ExpireBoundary`).

## Model

| member | source | states |
|---|---|---|
| Decimal.Trim | src/utils/poi.rs:59 | The result is a slice of the input. Only whitespace is cut on each side, and the result neither starts nor ends with whitespace. |
| Decimal.ParseU32 | src/utils/poi.rs:59 | The parse succeeds exactly when the text is an optional `+` followed by a non-empty run of ASCII digits whose value is below 2^32; the value is those digits' number. |
| Decimal.Accumulate | src/utils/poi.rs:59 | The left-to-right checked digit loop succeeds exactly when every character is a digit and the running value never reaches 2^32, giving acc·10^n plus the digits' value. |
| Decimal.FormatU32 | src/utils/posts.rs:183 | `to_string`: a non-empty run of digits with no leading zero (unless it is "0") whose value is the number. |
| Decimal.ParseFormat | src/utils/posts.rs:183 | Parsing the retirement member gives back the retired ID (round trip). |
| Decimal.SameIdDifferentText | src/utils/posts.rs:126 | "7", "07" and "+7" all parse to 7, while the member written back for 7 is "7". |
| Decimal.RejectsTrailingLetter | src/utils/poi.rs:68-70 | An entry such as "12a" does not parse and takes the error branch. |
| Poi.EntryIdMeaning | src/utils/poi.rs:59 | An entry names an ID exactly when its trimmed text is a `u32` literal, and the ID is that literal's value. |
| Poi.Storage.GetPoi | src/utils/poi.rs:40-76 | A failed request, body read or JSON decode returns that error with `poi` untouched. Otherwise `poi` becomes the admission loop's result over the entries, with a guarantee that it only grows by fresh IDs and stays duplicate-free. `processedPoi` never changes. |
| Poi.AdmitAllMembers | src/utils/poi.rs:58-72 | After admission an ID is pending exactly when it was pending before, or it is not processed and some entry parses to it. |
| Poi.AdmitAllExtends | src/utils/poi.rs:57-73 | The old pending list is a prefix of the new one, which grows by at most one ID per entry. |
| Poi.AdmitAllFresh | src/utils/poi.rs:61-62 | Every appended ID was in neither the processed set nor the prior pending list. |
| Poi.AdmitAllDistinct | src/utils/poi.rs:61-62 | A duplicate-free pending list stays duplicate-free, even when the listing repeats an ID. |
| Poi.AdmitAllGrown | src/utils/poi.rs:58-72 | The admission loop changes the pending list only by appending fresh IDs and keeps it duplicate-free. |
| Poi.AdmitAllListed | src/utils/poi.rs:58-62 | Every appended ID is named by some entry of the listing. |
| Poi.AdmitAllOrder | src/utils/poi.rs:58-62 | Appended IDs keep the order of their first occurrence in the listing. |
| Poi.AdmitAllIdempotent | src/utils/poi.rs:61 | Admitting the same listing a second time adds nothing. |
| Poi.AdmitAllFixed | src/utils/poi.rs:61 | A pending list that already holds every admissible listed ID is left unchanged. |
| Poi.AdmitExample | src/utils/poi.rs:58-71 | The listing ["12a", "77", "77"] on an empty state yields exactly [77]: the malformed entry is skipped and the repeat is not pushed again. |
| SortedSet.MinUnique | src/utils/posts.rs:125 | At most one member is first in Redis's order of score and then member text. |
| SortedSet.MinMember | src/utils/posts.rs:125 | The member ZPOPMIN takes has the lowest score and, among equal scores, the smallest text. |
| SortedSet.PopMin | src/utils/posts.rs:125 | An empty set yields nothing and is unchanged. Otherwise the first member is returned and removed, and every other member keeps its score. |
| SortedSet.RemoveRange | src/utils/redis.rs:11-18 | Exactly the members scored in [lo, hi] are removed, the rest keep their scores, and the size drops by the number removed. |
| SortedSet.RemoveRangeAgain | src/utils/redis.rs:11-18 | Removing the same score range again removes nothing. |
| SortedSet.Connection.ZPopMin | src/utils/posts.rs:125 | A Redis error leaves both sets intact. Otherwise the reply and the new state are `PopMin` of the key's set, and the other set is unchanged. |
| SortedSet.Connection.ZAdd | src/utils/posts.rs:182-184 | A Redis error leaves both sets intact. Otherwise the member's score is set, overwriting any earlier one; the reply is 1 if the member was new and 0 if not, and the other set is unchanged. |
| SortedSet.Connection.ZRemRangeByScore | src/utils/redis.rs:11-18 | A Redis error leaves both sets intact. Otherwise the key's set loses exactly its members scored in [lo, hi], the reply is their number, and the other set is unchanged. |
| Posts.ExtractReply | src/utils/posts.rs:204-210 | A failed chat call gives a failure and an empty choice list gives the indexing panic. Otherwise the reply is the first choice's content, or "" when it has none. |
| Posts.ReplyIdText | src/utils/posts.rs:237-248 | A reply id is found exactly when the response was received and read, parses as a JSON object, and has a string field "id"; that string is returned. |
| Posts.PostReply | src/utils/posts.rs:237-268 | Not posted exactly when no reply id string was found. Posted exactly when that string is a `u32` literal, with its value; otherwise the `unwrap` panics on that string. |
| Posts.PostReplyReadsId | src/utils/posts.rs:252 | A response whose "id" is the decimal text of n is read back as reply id n. |
| Posts.Prompt | src/utils/posts.rs:144-147 | The prompt is the fixed instructions ending in the title label, then the title verbatim, the content label, and the content verbatim, and nothing else. |
| Posts.SplitPromptInverts | src/utils/posts.rs:144-147 | The prompt determines title and content whenever the title does not contain the content label. |
| Posts.PromptAmbiguous | src/utils/posts.rs:144-147 | Without that condition two different posts can produce the same prompt. |
| Posts.Workflow | src/utils/posts.rs:133-169 | The detail fetch is always the first call. A panicking first request aborts, and a missing detail finishes with no further call. A filtered post is skipped with no further call. Otherwise generation follows with the prompt of title and content, publication follows only when reply text was produced, and the pacing sleep follows only when a reply id came back. Each ending is tied to its inputs in both directions: a failed chat call finishes as a generation failure, an empty choice list panics, and after publication the reply decides between publish failure, publication with the parsed reply id, and the panic on a non-`u32` reply id text. |
| Posts.PublishAtMostOnce | src/utils/posts.rs:148-160 | A workflow makes at most one publish call, only as its third call and only after a generate call. |
| Posts.ConsumePoi | src/utils/posts.rs:117-187 | The new Redis state, the popped member, the trace of calls and the ending are exactly those of `Consume` on the old state: pop, parse, workflow, then retire unless the workflow was filtered or panicked. |
| Posts.ConsumePopFailed | src/utils/posts.rs:127-130 | A failed ZPOPMIN ends the invocation with no call made and both sets as they were. |
| Posts.ConsumeIdle | src/utils/posts.rs:171-173 | An empty "poi" gives no call, no pop and unchanged sets. |
| Posts.ConsumePopsMin | src/utils/posts.rs:125-126 | From a non-empty "poi" the popped member had the lowest score and is removed, and nothing else in "poi" changes. |
| Posts.ConsumeShrinksPending | src/utils/posts.rs:123-126 | "poi" only loses members, the rest keep their scores, and the popped member is gone. |
| Posts.SuccessivePopsDiffer | src/utils/posts.rs:125 | Two invocations in a row never pop the same member. |
| Posts.ConsumeFiltered | src/utils/posts.rs:139-142 | A filtered post causes only the detail fetch, and its ID is not retired. |
| Posts.ConsumeFilterDecides | src/utils/posts.rs:139-147 | A fetched post ends filtered exactly when it is pinned, featured, hot or authorized; then only the fetch was made and nothing was retired. Any other post is sent to generation with its prompt. |
| Posts.ConsumeEndings | src/utils/posts.rs:125-186 | For a popped member that parses, the ending follows from the remote outcomes: the three panics abort the task, and no detail, a failed chat call, a failed publication or a successful one reach retirement with that result, retired or panicking as ZADD answers. |
| Posts.ConsumeRetires | src/utils/posts.rs:175-186 | "processed_poi" changes only when retirement succeeds. Then the popped ID's canonical text gets score now + 86400, overwriting any earlier score, and no other member changes. |
| Posts.ConsumeRetirementPaths | src/utils/posts.rs:132-186 | Every workflow that is neither filtered nor panicked reaches retirement, whichever of its four results it had. |
| Posts.ConsumeCalls | src/utils/posts.rs:132-174 | The calls of an invocation are the workflow's calls for the popped ID, or none when nothing was popped or the member did not parse. |
| Reaper.Reap | src/utils/redis.rs:7-31 | The reap succeeds exactly when both commands were answered and logs one count per answered command. It never adds a member; an error on "poi" changes nothing, and an error on "processed_poi" leaves that set as it was. |
| Reaper.RemoveExprElement | src/utils/redis.rs:7-31 | The new Redis state, the result and the logged counts are exactly those of `Reap`: sweep "poi", then "processed_poi", stopping at the first Redis error. |
| Reaper.ExpireBoundary | src/utils/redis.rs:11-18 | After a reap at `now`, a member remains exactly when its score is negative or above `now`, and it keeps its score. |
| Reaper.ExpireCount | src/utils/redis.rs:11-19 | A reap adds no member, and the logged count is the number of members removed. |
| Reaper.ExpireTwice | src/utils/redis.rs:20-27 | Reaping at t and then at u is reaping once at the later of the two, so a second reap at the same time removes nothing. |
| Reaper.ReapFirstFails | src/utils/redis.rs:11-18 | An error on "poi" returns at once: no change, no log line. |
| Reaper.ReapSecondFails | src/utils/redis.rs:20-27 | An error on "processed_poi" follows a completed sweep of "poi" and leaves "processed_poi" untouched, with one log line. |
| Reaper.ExpireSweeps | src/utils/redis.rs:11-19 | One sweep at t leaves no member scored in [0, t], keeps every other member with its score, and logs the number removed. |
| Reaper.ReapSweepsBoth | src/utils/redis.rs:7-31 | A sweep with no errors succeeds and sweeps each set at its own clock reading, logging both counts. |
| Reaper.ReapAgainRemovesNothing | src/utils/redis.rs:7-31 | Repeating a sweep with the same clock readings changes nothing and logs two zeros. |
| Reaper.RetiredExpiresAfterCooldown | src/utils/posts.rs:176-184 | A retired ID is in "processed_poi", and a reap at t keeps it exactly when t < now + 86400. |
| Reaper.RetiredSurvivesReap | src/utils/redis.rs:20-27 | A retired ID survives the reaper's second sweep exactly when that sweep's clock reading is before now + 86400. |

## Left out

- HTTP, JSON decoding and the chat client are not modelled. The listing, detail, chat and
  publish responses are parameters holding what each call returned. So are the session token
  header and the request URLs.
- Concurrency is not modelled: the `Arc<Mutex<...>>` locks, and the lock held on the Redis
  connection across the whole of `consume_poi`. Each operation is one atomic step on the state
  it holds.
- Environment variables are read with `expect`: `MODEL_NAME` (src/utils/posts.rs:194) and
  `WAIT_TIME_PER_REQ` (src/utils/posts.rs:251), which must also parse as an integer. Their
  panics are left out; the model assumes both variables are set and that `WAIT_TIME_PER_REQ`
  is an integer. The pacing sleep appears as the `PaceSleep` call, and its length is
  not modelled.
- Clock readings are natural numbers of seconds. The `duration_since(UNIX_EPOCH).unwrap()`
  panic for a clock set before 1970 is left out. The two readings in `remove_expr_element` are
  independent, because the system clock need not be monotonic.
- Reaper.RemoveExprElement: counts are natural numbers. The conversion of each ZREMRANGEBYSCORE
  reply to `i32` (src/utils/redis.rs:11, 20) is not modelled; it could fail only above
  2^31 - 1 removed members.
- Posts.Consume: the `f64` score now + 86400.0 (src/utils/posts.rs:177-181) is modelled as the
  exact integer. This is exact for every clock reading below 2^53 seconds.
- A Redis error is modelled as a command that did not run: `ZPopMin`, `ZAdd` and
  `ZRemRangeByScore` leave both sets intact when they fail. A reply lost after the server
  executed the command is not modelled. For ZPOPMIN that would lose the popped item: it is
  gone from `"poi"` but never worked on or retired.
- JSON numbers are integers; floating-point JSON numbers are not modelled.
- Logging (`info!`, `debug!`, `error!`) is not modelled. The only output kept is the
  reaper's logged counts.
- The unused `Mark` enum (src/utils/poi.rs:11-14) is not modelled.
- src/main.rs, src/utils/identity.rs and src/entity/identity.rs are not part of this model:
  login, the scheduling loop and moving IDs between memory and Redis.
