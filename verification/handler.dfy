/**
 * The `messageCreate` handler of index.js (lines 37-61) as a function from
 * a message to what the handler does with it.
 *
 * The handler reads three things from a Discord message: whether its author
 * is a bot, the name of its channel and its text. Any of them may be absent
 * (`message.author?.bot`, `message.channel?.name`, `message.content || ''`).
 * The webhook call is an effect outside the model: its result is a parameter
 * of `Handle`, and the handler's only observable effects are the posts it
 * makes and whether it logs an error.
 */
module ReportsHandler {
  import opened UrlScanner
  import opened Dedup

  /** `REPORTS_CHANNEL_NAME` of index.js:9. */
  const ReportsChannelName: string := "reports"

  datatype Option<T> = None | Some(value: T)

  datatype Author = Author(bot: bool)

  /** The parts of a Discord message the handler reads; `None` is `null`/`undefined`. */
  datatype Message = Message(author: Option<Author>, channelName: Option<string>, content: Option<string>)

  datatype SkipReason = AuthorIsBot | NotReportsChannel | NoMatches

  /**
   * What the handler decides before any network traffic. `ThrowsBeforePost` is the
   * message without an author: the optional chain at index.js:39 lets it through,
   * but the log line at index.js:49 reads `message.author.tag` and throws.
   */
  datatype Decision =
    | Skip(reason: SkipReason)
    | Forward(urls: seq<string>)
    | ThrowsBeforePost

  /** The body `{ urls }` of the webhook POST. */
  datatype Payload = Payload(urls: seq<string>)

  /** How the webhook POST ends: completed, or rejected (timeout, network error, error status). */
  datatype PostResult = Delivered | Rejected(detail: string)

  /** The observable effects of one handler run. */
  datatype Effects = Effects(posts: seq<Payload>, errorLogged: bool)

  /** `message.content || ''`: absent and empty content both become the empty text. */
  function Text(m: Message): (t: string)
    ensures m.content.Some? ==> t == m.content.value
    ensures m.content.None? ==> t == []
  {
    if m.content.Some? then m.content.value else ""
  }

  /** `text.match(URL_REGEX)`: `null` when there is no match, otherwise the matches. */
  function MatchOrNull(text: string): (r: Option<seq<string>>)
    ensures r.None? <==> Matches(text) == []
    ensures r.Some? ==> r.value == Matches(text)
  {
    var ms := Matches(text);
    if ms == [] then None else Some(ms)
  }

  predicate AuthorIsABot(m: Message) {
    m.author.Some? && m.author.value.bot
  }

  /** The decision logic of index.js:39-47, in the order the code applies it. */
  function Decide(m: Message): (d: Decision)
    ensures d.Forward? ==>
              && 1 <= |d.urls| <= MaxBatch
              && NoDuplicates(d.urls)
              && forall k :: 0 <= k < |d.urls| ==> IsGameUrl(d.urls[k]) && Occurs(d.urls[k], Text(m))
  {
    if AuthorIsABot(m) then Skip(AuthorIsBot)
    else if m.channelName != Some(ReportsChannelName) then Skip(NotReportsChannel)
    else
      var matches := MatchOrNull(Text(m));
      if matches.None? || |matches.value| == 0 then Skip(NoMatches)
      else
        var urls := Batch(matches.value);
        if m.author.None? then ThrowsBeforePost
        else Forward(urls)
  }

  /**
   * One run of the handler: at most one POST, and every exception (the missing
   * author, a rejected POST) is caught and logged, so the run always ends normally.
   */
  function Handle(m: Message, post: PostResult): (e: Effects)
    ensures |e.posts| <= 1
    ensures forall k :: 0 <= k < |e.posts| ==>
              && 1 <= |e.posts[k].urls| <= MaxBatch
              && NoDuplicates(e.posts[k].urls)
              && forall j :: 0 <= j < |e.posts[k].urls| ==> IsGameUrl(e.posts[k].urls[j])
  {
    match Decide(m)
    case Skip(_) => Effects([], false)
    case ThrowsBeforePost => Effects([], true)
    case Forward(urls) => Effects([Payload(urls)], post.Rejected?)
  }

  /** A bot's message is skipped and nothing is posted, whatever its channel or content. */
  lemma BotMessageNeverPosted(m: Message, post: PostResult)
    requires AuthorIsABot(m)
    ensures Decide(m) == Skip(AuthorIsBot)
    ensures Handle(m, post) == Effects([], false)
  {
  }

  /** A message outside #reports is skipped, even when its content holds game links. */
  lemma OtherChannelNeverPosted(m: Message, post: PostResult)
    requires !AuthorIsABot(m) && m.channelName != Some(ReportsChannelName)
    ensures Decide(m) == Skip(NotReportsChannel)
    ensures Handle(m, post) == Effects([], false)
  {
  }

  /** Absent or empty content is never posted; an eligible message with it is skipped for lack of matches. */
  lemma NoContentNeverPosted(m: Message, post: PostResult)
    requires m.content.None? || m.content == Some("")
    ensures Decide(m).Skip?
    ensures !AuthorIsABot(m) && m.channelName == Some(ReportsChannelName) ==> Decide(m) == Skip(NoMatches)
    ensures Handle(m, post) == Effects([], false)
  {
    EmptyTextHasNoMatches();
  }

  /** The handler posts exactly when the message passes every check, and then posts the batch. */
  lemma PostsExactlyWhenEligible(m: Message, post: PostResult)
    ensures Handle(m, post).posts != [] <==>
              && m.author.Some? && !m.author.value.bot
              && m.channelName == Some(ReportsChannelName)
              && Matches(Text(m)) != []
    ensures Handle(m, post).posts != [] ==>
              Handle(m, post).posts == [Payload(Batch(Matches(Text(m))))]
  {
  }

  /** An error is logged exactly when a POST was attempted and rejected, or the author was missing. */
  lemma ErrorLoggedExactlyWhenFailed(m: Message, post: PostResult)
    ensures Handle(m, post).errorLogged <==>
              && !AuthorIsABot(m)
              && m.channelName == Some(ReportsChannelName)
              && Matches(Text(m)) != []
              && (m.author.None? || post.Rejected?)
  {
  }

  /** Whether the POST succeeds changes nothing but the error log. */
  lemma PostsIndependentOfDelivery(m: Message, detail: string)
    ensures Handle(m, Delivered).posts == Handle(m, Rejected(detail)).posts
    ensures !Handle(m, Delivered).errorLogged || Decide(m) == ThrowsBeforePost
  {
  }

  /** The game link of the single-link example. */
  const ExampleUrl: string := GameUrlPrefix + "123"

  /** A message text with one game link in running text. */
  const ExampleText: string := "check " + ExampleUrl + " please"

  lemma ExampleTextLayout()
    ensures |ExampleText| == 56
    ensures ExampleText[..6] == "check "
    ensures ExampleText[6..49] == ExampleUrl
    ensures ExampleText[6..46] == GameUrlPrefix
    ensures ExampleText[46..49] == "123" && ExampleText[49] == ' '
  {
  }

  lemma ExampleScan()
    ensures LeftmostGreedy(ExampleText, 0, [Span(6, 49)])
  {
    ExampleTextLayout();
    var spans := [Span(6, 49)];
    assert AllDigits(ExampleText[46..49]);
    assert GreedyMatch(ExampleText, 6, 49);
    forall p: nat | 0 <= p < |ExampleText| && MatchAt(ExampleText, p)
      ensures Covered(spans, p)
    {
      assert spans[0].start <= p < spans[0].end;
    }
  }

  /** The example of a single link in running text: that link, and only it, is posted. */
  lemma SingleLinkInText(post: PostResult)
    ensures
      var m := Message(Some(Author(false)), Some(ReportsChannelName), Some(ExampleText));
      Handle(m, post).posts == [Payload([ExampleUrl])]
  {
    ExampleScan();
    ExampleTextLayout();
    MatchesCharacterised(ExampleText, [Span(6, 49)]);
    assert Matches(ExampleText) == [ExampleUrl];
    DistinctOfNoDuplicates([ExampleUrl]);
  }
}
