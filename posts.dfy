/**
 * Consumption of one pending post: pop the lowest-scored member of `"poi"`,
 * fetch the post, skip pinned/featured/hot/authorized posts, generate a
 * reply from a prompt built from title and content, publish it, and record
 * the ID in `"processed_poi"` with score now + 86400.
 *
 * The remote calls (detail fetch, chat completion, reply publication) and
 * the Redis replies are inputs, bundled in a `World`; the model records the
 * calls it makes in a trace.
 */
module Posts {
  import opened Wrappers
  import opened Decimal
  import opened SortedSet

  /** Seconds added to the retirement time to form the `"processed_poi"` score. */
  const COOLDOWN: nat := 86400

  // ---------------------------------------------------------------------
  // Post detail and the filter

  /** The fields of the post-detail response the bot reads. */
  datatype Post = Post(
    id: string,
    title: string,
    content: string,
    isAuthorized: bool,
    isFeatured: bool,
    isHotted: bool,
    isPinned: bool)

  /** What fetching the post detail yields. The detail is requested twice:
      the first response is only read for logging and a failure to send it
      or read its text panics; the second is decoded, and a failure to send
      or decode it gives no post. */
  datatype Detail = FirstRequestPanic | NoPost | Fetched(post: Post)

  /** Pinned, featured, hot and authorized posts get no reply. */
  predicate IsFiltered(p: Post) {
    p.isPinned || p.isFeatured || p.isHotted || p.isAuthorized
  }

  // ---------------------------------------------------------------------
  // The prompt

  const PROMPT_HEAD: string := "请扮演一位编程社区的用户，根据帖子内容生成对应的回复：\n标题:"
  const CONTENT_LABEL: string := "\n内容:"

  /** The text sent to the chat model: fixed instructions ending in a
      title label, the title verbatim, a content label, then the content
      verbatim. */
  function Prompt(title: string, content: string): (p: string)
    ensures |p| == |PROMPT_HEAD| + |title| + |CONTENT_LABEL| + |content|
    ensures PROMPT_HEAD <= p
    ensures p[|PROMPT_HEAD|..|PROMPT_HEAD| + |title|] == title
    ensures p[|PROMPT_HEAD| + |title|..|p| - |content|] == CONTENT_LABEL
    ensures p[|p| - |content|..] == content
  {
    PROMPT_HEAD + title + CONTENT_LABEL + content
  }

  /** `pat` occurs in `s` at index `i`. */
  predicate OccursAt(s: string, pat: string, i: nat) {
    i + |pat| <= |s| && s[i..i + |pat|] == pat
  }

  predicate Contains(s: string, pat: string) {
    exists i: nat :: i <= |s| && OccursAt(s, pat, i)
  }

  /** The first index at or after `from` where `pat` occurs in `s`. */
  function FindFrom(s: string, pat: string, from: nat): (r: Option<nat>)
    requires from <= |s|
    ensures r.Some? ==> from <= r.value && OccursAt(s, pat, r.value)
    ensures forall i: nat :: from <= i && (r.None? || i < r.value) ==> !OccursAt(s, pat, i)
    decreases |s| - from
  {
    if OccursAt(s, pat, from) then Some(from)
    else if from == |s| then None
    else FindFrom(s, pat, from + 1)
  }

  /** Reads title and content back out of a prompt, cutting at the first
      content label after the head. */
  function SplitPrompt(p: string): Option<(string, string)> {
    if !(PROMPT_HEAD <= p) then None
    else
      match FindFrom(p, CONTENT_LABEL, |PROMPT_HEAD|)
      case None => None
      case Some(i) => Some((p[|PROMPT_HEAD|..i], p[i + |CONTENT_LABEL|..]))
  }

  /** Cutting at the first occurrence of `sep` after `head` recovers
      `title` and `rest`, provided the title does not contain `sep` and
      the separator's first character does not recur inside it (so that no
      occurrence can straddle the end of the title). */
  lemma {:induction false} SplitAtFirstLabel(head: string, title: string, sep: string, rest: string)
    requires sep != [] && forall m :: 0 < m < |sep| ==> sep[m] != sep[0]
    requires !Contains(title, sep)
    ensures var p := head + title + sep + rest;
      FindFrom(p, sep, |head|) == Some(|head| + |title|)
  {
    var p := head + title + sep + rest;
    var h, t, n := |head|, |title|, |sep|;
    assert p[h + t..h + t + n] == sep;
    assert OccursAt(p, sep, h + t);
    forall i: nat | h <= i < h + t
      ensures !OccursAt(p, sep, i)
    {
      if i + n <= h + t {
        assert p[i..i + n] == title[i - h..i - h + n];
        assert !OccursAt(title, sep, i - h);
      } else {
        assert p[h + t] == sep[0];
        assert i + n <= |p| ==> p[i..i + n][h + t - i] == p[h + t];
      }
    }
  }

  /** The prompt determines the post's title and content unless the title
      itself contains the content label. */
  lemma SplitPromptInverts(title: string, content: string)
    requires !Contains(title, CONTENT_LABEL)
    ensures SplitPrompt(Prompt(title, content)) == Some((title, content))
  {
    var p := Prompt(title, content);
    var h, t, n := |PROMPT_HEAD|, |title|, |CONTENT_LABEL|;
    SplitAtFirstLabel(PROMPT_HEAD, title, CONTENT_LABEL, content);
    assert PROMPT_HEAD <= p;
    assert p[h..h + t] == title;
    assert p[h + t + n..] == content;
  }

  /** Without that condition the split fails: two different posts can
      yield the same prompt. */
  lemma PromptAmbiguous()
    ensures Prompt(CONTENT_LABEL, "") == Prompt("", CONTENT_LABEL)
  {
  }

  // ---------------------------------------------------------------------
  // Reply generation

  /** The outcome of the chat-completion call: an error, or the response's
      choices, each carrying its optional message content. */
  datatype ChatReply = ChatFailed | ChatAnswered(choices: seq<Option<string>>)

  /** What reply generation yields: an error, a panic from indexing the
      first choice of an empty list, or the reply text. */
  datatype Generated = GenFailed | GenNoChoice | GenText(text: string)

  /** The reply is the first choice's content, or "" when it has none. */
  function ExtractReply(c: ChatReply): (g: Generated)
    ensures g.GenFailed? <==> c.ChatFailed?
    ensures g.GenNoChoice? <==> c.ChatAnswered? && c.choices == []
    ensures g.GenText? ==> c.ChatAnswered? && |c.choices| > 0
    ensures g.GenText? && c.choices[0].Some? ==> g.text == c.choices[0].value
    ensures g.GenText? && c.choices[0].None? ==> g.text == ""
  {
    match c
    case ChatFailed => GenFailed
    case ChatAnswered(choices) =>
      if choices == [] then GenNoChoice else GenText(choices[0].GetOr(""))
  }

  // ---------------------------------------------------------------------
  // Reply publication

  /** A JSON value (numbers are taken as integers). */
  datatype Json =
    | JNull
    | JBool(b: bool)
    | JNumber(n: int)
    | JString(s: string)
    | JArray(items: seq<Json>)
    | JObject(fields: map<string, Json>)

  /** The response to the publish request: no response at all, or a body
      that could not be read, or body text that either is not JSON (`None`)
      or parses to a JSON value. */
  datatype Body = Unreadable | Text(json: Option<Json>)
  datatype ReplyResponse = SendFailed | Received(body: Body)

  /** `v.get("id").and_then(|v| v.as_str())` on the response. An unreadable
      body is replaced by the empty text, which is not JSON. */
  function ReplyIdText(resp: ReplyResponse): (r: Option<string>)
    ensures r.Some? <==>
      && resp.Received? && resp.body.Text? && resp.body.json.Some?
      && resp.body.json.value.JObject?
      && "id" in resp.body.json.value.fields
      && resp.body.json.value.fields["id"].JString?
    ensures r.Some? ==> r.value == resp.body.json.value.fields["id"].s
  {
    match resp
    case SendFailed => None
    case Received(Unreadable) => None
    case Received(Text(None)) => None
    case Received(Text(Some(v))) =>
      if v.JObject? && "id" in v.fields && v.fields["id"].JString? then Some(v.fields["id"].s)
      else None
  }

  /** What `post_reply` yields: `None`, `Some(reply id)`, or a panic when
      the reply id text is not a `u32`. */
  datatype Posted = NotPosted | PostedAs(replyId: u32) | ReplyIdPanic(raw: string)

  /** `post_reply`'s decision on the response. */
  function PostReply(resp: ReplyResponse): (r: Posted)
    ensures r.NotPosted? <==> ReplyIdText(resp).None?
    ensures r.PostedAs? <==> ReplyIdText(resp).Some? && IsU32Literal(ReplyIdText(resp).value)
    ensures r.PostedAs? ==> r.replyId == DigitsValue(Unsigned(ReplyIdText(resp).value))
    ensures r.ReplyIdPanic? ==> r.raw == ReplyIdText(resp).value
  {
    match ReplyIdText(resp)
    case None => NotPosted
    case Some(raw) =>
      match ParseU32(raw)
      case None => ReplyIdPanic(raw)
      case Some(n) => PostedAs(n)
  }

  /** A reply text that `u32::to_string` produced comes back as that ID. */
  lemma PostReplyReadsId(n: u32, fields: map<string, Json>)
    requires "id" in fields && fields["id"] == JString(FormatU32(n))
    ensures PostReply(Received(Text(Some(JObject(fields))))) == PostedAs(n)
  {
    ParseFormat(n);
  }

  // ---------------------------------------------------------------------
  // The per-item workflow

  /** The external calls, as recorded in the trace. `PaceSleep` is the
      sleep after a reply id came back. */
  datatype Call =
    | FetchDetail(id: u32)
    | Generate(prompt: string)
    | Publish(id: u32, text: string)
    | PaceSleep

  /** Where a task panicked (an `unwrap` or an index out of bounds). */
  datatype Panic = MemberNotU32(member: string) | DetailUnwrap | NoChoices | ReplyIdNotU32(raw: string)

  /** The result of the workflow on the paths that go on to retirement. */
  datatype WorkResult = NoDetail | GenerateFailed | PublishFailed | Published(replyId: u32)

  /** How the workflow ends: a panic, the filter's early return, or one of
      the results after which the ID is retired. */
  datatype WorkEnd = Abort(panic: Panic) | Skip | Finish(result: WorkResult)

  datatype Run = Run(calls: seq<Call>, end: WorkEnd)

  /** The detail came back and the post passed the filter, so a reply is
      generated for it. */
  predicate Generates(detail: Detail) {
    detail.Fetched? && !IsFiltered(detail.post)
  }

  /** Fetch, filter, generate, publish for the popped `id`, given what
      each remote call returns. */
  function Workflow(id: u32, detail: Detail, chat: ChatReply, reply: ReplyResponse): (run: Run)
    ensures 1 <= |run.calls| <= 4 && run.calls[0] == FetchDetail(id)
    ensures |run.calls| >= 2 <==> Generates(detail)
    ensures |run.calls| >= 2 ==> run.calls[1] == Generate(Prompt(detail.post.title, detail.post.content))
    ensures |run.calls| >= 3 <==> |run.calls| >= 2 && ExtractReply(chat).GenText?
    ensures |run.calls| >= 3 ==> run.calls[2] == Publish(id, ExtractReply(chat).text)
    ensures |run.calls| == 4 <==> |run.calls| >= 3 && ReplyIdText(reply).Some?
    ensures |run.calls| == 4 ==> run.calls[3] == PaceSleep
    ensures run.end == Abort(DetailUnwrap) <==> detail.FirstRequestPanic?
    ensures run.end == Skip <==> detail.Fetched? && IsFiltered(detail.post)
    ensures run.end == Finish(NoDetail) <==> detail.NoPost?
    ensures run.end == Finish(GenerateFailed) <==> Generates(detail) && chat.ChatFailed?
    ensures run.end == Abort(NoChoices) <==> Generates(detail) && chat.ChatAnswered? && chat.choices == []
    ensures run.end == Finish(PublishFailed) <==>
      Generates(detail) && chat.ChatAnswered? && chat.choices != [] && PostReply(reply).NotPosted?
    ensures run.end.Finish? && run.end.result.Published? <==>
      Generates(detail) && chat.ChatAnswered? && chat.choices != [] && PostReply(reply).PostedAs?
    ensures run.end.Finish? && run.end.result.Published? ==> run.end.result.replyId == PostReply(reply).replyId
    ensures run.end.Abort? && run.end.panic.ReplyIdNotU32? <==>
      Generates(detail) && chat.ChatAnswered? && chat.choices != [] && PostReply(reply).ReplyIdPanic?
    ensures run.end.Abort? && run.end.panic.ReplyIdNotU32? ==> run.end.panic.raw == ReplyIdText(reply).value
  {
    match detail
    case FirstRequestPanic => Run([FetchDetail(id)], Abort(DetailUnwrap))
    case NoPost => Run([FetchDetail(id)], Finish(NoDetail))
    case Fetched(post) =>
      if IsFiltered(post) then Run([FetchDetail(id)], Skip)
      else
        var prompt := Prompt(post.title, post.content);
        match ExtractReply(chat)
        case GenFailed => Run([FetchDetail(id), Generate(prompt)], Finish(GenerateFailed))
        case GenNoChoice => Run([FetchDetail(id), Generate(prompt)], Abort(NoChoices))
        case GenText(text) =>
          var calls := [FetchDetail(id), Generate(prompt), Publish(id, text)];
          match PostReply(reply)
          case NotPosted => Run(calls, Finish(PublishFailed))
          case PostedAs(n) => Run(calls + [PaceSleep], Finish(Published(n)))
          case ReplyIdPanic(raw) => Run(calls + [PaceSleep], Abort(ReplyIdNotU32(raw)))
  }

  /** Number of publish calls in a trace. */
  function Publishes(calls: seq<Call>): nat {
    if calls == [] then 0 else (if calls[0].Publish? then 1 else 0) + Publishes(calls[1..])
  }

  lemma {:induction false} PublishesAtMostOne(calls: seq<Call>, k: int)
    requires forall i :: 0 <= i < |calls| && calls[i].Publish? ==> i == k
    ensures Publishes(calls) <= 1
    ensures k < 0 ==> Publishes(calls) == 0
  {
    if calls != [] {
      PublishesAtMostOne(calls[1..], k - 1);
    }
  }

  /** At most one publish call per workflow, and only after a generate call. */
  lemma PublishAtMostOnce(id: u32, detail: Detail, chat: ChatReply, reply: ReplyResponse)
    ensures var calls := Workflow(id, detail, chat, reply).calls;
      && Publishes(calls) <= 1
      && forall i :: 0 <= i < |calls| && calls[i].Publish? ==> i == 2 && calls[1].Generate?
  {
    PublishesAtMostOne(Workflow(id, detail, chat, reply).calls, 2);
  }

  // ---------------------------------------------------------------------
  // consume_poi

  /** Everything outside the model that `consume_poi` consults: whether
      ZPOPMIN was answered, the post detail, the chat reply, the publish response and whether
      ZADD was answered. */
  datatype World = World(
    popAnswered: bool,
    detail: Detail,
    chat: ChatReply,
    reply: ReplyResponse,
    addAnswered: bool)

  /** Whether the ZADD of the retirement step succeeded or panicked. */
  datatype Retirement = Retired | RetirePanicked

  /** How one `consume_poi` invocation ends. */
  datatype Ending =
    | Idle
    | PopFailed
    | Aborted(panic: Panic)
    | Filtered
    | Done(result: WorkResult, retirement: Retirement)

  /** The state after one invocation, the member popped, the calls made
      and the ending. */
  datatype Step = Step(sets: Sets, popped: Option<string>, calls: seq<Call>, ending: Ending)

  /** One `consume_poi` invocation at clock reading `now`. */
  ghost function Consume(s: Sets, w: World, now: nat): Step {
    if !w.popAnswered then Step(s, None, [], PopFailed)
    else
      var p := PopMin(s.poi);
      var after := s.Put(PoiKey, p.rest);
      match p.member
      case None => Step(after, None, [], Idle)
      case Some(m) =>
        match ParseU32(m)
        case None => Step(after, p.member, [], Aborted(MemberNotU32(m)))
        case Some(id) =>
          var run := Workflow(id, w.detail, w.chat, w.reply);
          match run.end
          case Abort(panic) => Step(after, p.member, run.calls, Aborted(panic))
          case Skip => Step(after, p.member, run.calls, Filtered)
          case Finish(result) =>
            if w.addAnswered then
              var retired := after.processedPoi[FormatU32(id) := now + COOLDOWN];
              Step(after.Put(ProcessedPoiKey, retired), p.member, run.calls, Done(result, Retired))
            else
              Step(after, p.member, run.calls, Done(result, RetirePanicked))
  }

  /** `consume_poi` against the Redis connection `conn`: the Redis commands
      are issued in the order of the source, with the remote calls decided by
      `Workflow`. */
  method ConsumePoi(conn: Connection, w: World, now: nat)
    returns (popped: Option<string>, calls: seq<Call>, ending: Ending)
    modifies conn
    ensures Step(conn.State(), popped, calls, ending) == Consume(old(conn.State()), w, now)
  {
    var pop := conn.ZPopMin(PoiKey, w.popAnswered);
    if pop.Failure? {
      return None, [], PopFailed;
    }
    popped := pop.value;
    if popped.None? {
      return None, [], Idle;
    }
    var id: u32;
    match ParseU32(popped.value) {
      case None =>
        return popped, [], Aborted(MemberNotU32(popped.value));
      case Some(n) =>
        id := n;
    }
    var run := Workflow(id, w.detail, w.chat, w.reply);
    calls := run.calls;
    match run.end {
      case Abort(panic) =>
        return popped, calls, Aborted(panic);
      case Skip =>
        // the filter returns before the retirement step
        return popped, calls, Filtered;
      case Finish(result) =>
        var added := conn.ZAdd(ProcessedPoiKey, FormatU32(id), now + COOLDOWN, w.addAnswered);
        ending := Done(result, if added.Success? then Retired else RetirePanicked);
    }
  }

  // ---------------------------------------------------------------------
  // Properties of consume_poi

  /** A failed ZPOPMIN ends the invocation with no call made and both sets
      as they were. */
  lemma ConsumePopFailed(s: Sets, w: World, now: nat)
    requires !w.popAnswered
    ensures var step := Consume(s, w, now);
      step.sets == s && step.calls == [] && step.ending == PopFailed
  {
  }

  /** An empty `"poi"`: no remote call, and `"processed_poi"` unchanged. */
  lemma ConsumeIdle(s: Sets, w: World, now: nat)
    requires w.popAnswered && s.poi == map[]
    ensures var step := Consume(s, w, now);
      step.sets == s && step.popped == None && step.calls == [] && step.ending == Idle
  {
    assert PopMin(s.poi).rest == s.poi;
  }

  /** A popped member was first in Redis's order and is gone afterwards;
      every other pending member keeps its score, and nothing is added. */
  lemma ConsumePopsMin(s: Sets, w: World, now: nat)
    requires w.popAnswered && s.poi != map[]
    ensures var step := Consume(s, w, now);
      && step.popped.Some?
      && step.popped.value in s.poi
      && (forall j :: j in s.poi ==> s.poi[step.popped.value] <= s.poi[j])
      && step.sets.poi == s.poi - {step.popped.value}
  {
    var p := PopMin(s.poi);
    assert p.rest == s.poi - {p.member.value};
  }

  /** `"poi"` only ever loses members, keeping the scores of the rest. */
  lemma ConsumeShrinksPending(s: Sets, w: World, now: nat)
    ensures var step := Consume(s, w, now);
      && step.sets.poi.Keys <= s.poi.Keys
      && (forall j :: j in step.sets.poi ==> step.sets.poi[j] == s.poi[j])
      && (step.popped.Some? ==> step.popped.value !in step.sets.poi)
  {
  }

  /** Two invocations in a row never pop the same member. */
  lemma SuccessivePopsDiffer(s: Sets, w1: World, now1: nat, w2: World, now2: nat)
    ensures var first := Consume(s, w1, now1);
      var second := Consume(first.sets, w2, now2);
      first.popped.Some? && second.popped.Some? ==> first.popped != second.popped
  {
    var first := Consume(s, w1, now1);
    ConsumeShrinksPending(s, w1, now1);
    ConsumeShrinksPending(first.sets, w2, now2);
  }

  /** A filtered post: only the detail fetch happens, and because of the
      early return the ID is not retired. */
  lemma ConsumeFiltered(s: Sets, w: World, now: nat, id: u32, post: Post)
    requires w.popAnswered && s.poi != map[]
    requires ParseU32(PopMin(s.poi).member.value) == Some(id)
    requires w.detail == Fetched(post) && IsFiltered(post)
    ensures var step := Consume(s, w, now);
      && step.calls == [FetchDetail(id)]
      && step.sets.processedPoi == s.processedPoi
      && step.ending == Filtered
  {
  }

  /** The filter decides between the early return and generation: a post
      with any of the four flags set gets only the detail fetch and is not
      retired; any other post is sent to the chat model with its prompt. */
  lemma ConsumeFilterDecides(s: Sets, w: World, now: nat, id: u32, post: Post)
    requires w.popAnswered && s.poi != map[]
    requires ParseU32(PopMin(s.poi).member.value) == Some(id)
    requires w.detail == Fetched(post)
    ensures var step := Consume(s, w, now);
      && (step.ending == Filtered <==> post.isPinned || post.isFeatured || post.isHotted || post.isAuthorized)
      && (step.ending == Filtered ==> step.calls == [FetchDetail(id)] && step.sets.processedPoi == s.processedPoi)
      && (step.ending != Filtered ==> |step.calls| >= 2 && step.calls[1] == Generate(Prompt(post.title, post.content)))
  {
  }

  /** How an invocation that popped a parsable member ends, case by case
      on the remote calls' outcomes: the three panics abort it, and every
      other unfiltered outcome (no detail, a failed chat call, a failed or
      a successful publication) reaches the retirement step. */
  lemma ConsumeEndings(s: Sets, w: World, now: nat)
    requires w.popAnswered && s.poi != map[]
    requires ParseU32(PopMin(s.poi).member.value).Some?
    ensures var e := Consume(s, w, now).ending;
      var retirement := if w.addAnswered then Retired else RetirePanicked;
      var replied := Generates(w.detail) && w.chat.ChatAnswered? && w.chat.choices != [];
      && (w.detail.FirstRequestPanic? ==> e == Aborted(DetailUnwrap))
      && (w.detail.NoPost? ==> e == Done(NoDetail, retirement))
      && (Generates(w.detail) && w.chat.ChatFailed? ==> e == Done(GenerateFailed, retirement))
      && (Generates(w.detail) && w.chat.ChatAnswered? && w.chat.choices == [] ==> e == Aborted(NoChoices))
      && (replied && PostReply(w.reply).NotPosted? ==> e == Done(PublishFailed, retirement))
      && (replied && PostReply(w.reply).PostedAs? ==> e == Done(Published(PostReply(w.reply).replyId), retirement))
      && (replied && PostReply(w.reply).ReplyIdPanic? ==> e == Aborted(ReplyIdNotU32(ReplyIdText(w.reply).value)))
  {
  }

  /** `"processed_poi"` changes only on the retirement paths. There the
      canonical text of the ID gets score now + 86400, overwriting any
      earlier score, and no other member changes. */
  lemma ConsumeRetires(s: Sets, w: World, now: nat)
    ensures var step := Consume(s, w, now);
      if step.ending.Done? && step.ending.retirement == Retired then
        && step.popped.Some?
        && ParseU32(step.popped.value).Some?
        && step.sets.processedPoi
             == s.processedPoi[FormatU32(ParseU32(step.popped.value).value) := now + COOLDOWN]
      else
        step.sets.processedPoi == s.processedPoi
  {
  }

  /** Which invocations reach the retirement step: a popped member that
      parses, a workflow that neither filtered nor panicked, and an
      answered ZADD. The workflow result can be any of the four. */
  lemma ConsumeRetirementPaths(s: Sets, w: World, now: nat)
    requires w.popAnswered && s.poi != map[] && w.addAnswered
    requires ParseU32(PopMin(s.poi).member.value).Some?
    ensures var id := ParseU32(PopMin(s.poi).member.value).value;
      var run := Workflow(id, w.detail, w.chat, w.reply);
      run.end.Finish? ==> Consume(s, w, now).ending == Done(run.end.result, Retired)
  {
  }

  /** The trace of an invocation is the workflow's trace for the popped ID,
      or empty when nothing was popped or the member did not parse. */
  lemma ConsumeCalls(s: Sets, w: World, now: nat)
    ensures var step := Consume(s, w, now);
      if step.popped.Some? && ParseU32(step.popped.value).Some? then
        step.calls == Workflow(ParseU32(step.popped.value).value, w.detail, w.chat, w.reply).calls
      else
        step.calls == []
  {
  }
}
