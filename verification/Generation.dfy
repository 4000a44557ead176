/** The two generation loops over one model: the blocking one that returns the whole text and the
    streaming one that sends it token by token.

    The model and sampler are an oracle: the next token is a function of everything fed to the
    model (tokens with their positions) and of the tokens the sampler has accepted. A decode call
    succeeds or fails depending on the history it completes. */
module Generation {
  import opened Prelude

  type Token = nat

  const MAX_N_CTX: nat := 32768
  const N_BATCH: nat := 512

  datatype Fed = Fed(token: Token, pos: int)

  datatype Model = Model(
    nCtxTrain: nat,
    sample: (seq<Fed>, seq<Token>) -> Token,
    eog: Token -> bool,
    text: Token -> string,
    decodes: seq<Fed> -> bool)

  datatype Request = Request(maxTokens: u32, stops: seq<string>)

  datatype FinishReason = Stop | Length

  datatype Failure = PromptTooLong | DecodeFailed

  datatype Response = Response(content: string, tokensIn: nat, tokensOut: nat, finish: FinishReason)

  /** One message on the stream's channel. */
  datatype Item = Piece(text: string, isLast: bool) | Failed(failure: Failure)

  /** Rust's `as i32` on an unsigned 32-bit value. */
  function AsI32(x: u32): int {
    if x < 0x8000_0000 then x else x - 0x1_0000_0000
  }

  predicate EndsWith(s: string, suffix: string) {
    |suffix| <= |s| && s[|s| - |suffix|..] == suffix
  }

  predicate EndsWithAny(s: string, stops: seq<string>) {
    exists i :: 0 <= i < |stops| && EndsWith(s, stops[i])
  }

  // ---- the transcript: one reference for both loops ----

  /** Tokens fed at positions 0, 1, 2, ... */
  function Feed(tokens: seq<Token>): seq<Fed> {
    seq(|tokens|, i requires 0 <= i < |tokens| => Fed(tokens[i], i))
  }

  lemma FeedConcat(x: seq<Token>, t: Token)
    ensures Feed(x + [t]) == Feed(x) + [Fed(t, |x|)]
  {
  }

  /** The first `n` tokens sampled when every sampled token is fed back before the next. */
  function Drawn(m: Model, prompt: seq<Token>, n: nat): (r: seq<Token>)
    ensures |r| == n
  {
    if n == 0 then []
    else
      var before := Drawn(m, prompt, n - 1);
      before + [m.sample(Feed(prompt + before), before)]
  }

  function Text(m: Model, tokens: seq<Token>): string {
    if tokens == [] then "" else Text(m, tokens[..|tokens| - 1]) + m.text(tokens[|tokens| - 1])
  }

  /** The token sampled at step `n`. */
  function TokenAt(m: Model, prompt: seq<Token>, n: nat): Token {
    Drawn(m, prompt, n + 1)[n]
  }

  /** Sampling token `n` ends the answer. */
  predicate Ends(m: Model, prompt: seq<Token>, req: Request, n: nat) {
    || m.eog(TokenAt(m, prompt, n))
    || EndsWithAny(Text(m, Drawn(m, prompt, n + 1)), req.stops)
    || n + 1 >= AsI32(req.maxTokens)
  }

  /** Feeding token `n` back fails. */
  predicate Breaks(m: Model, prompt: seq<Token>, n: nat) {
    !m.decodes(Feed(prompt + Drawn(m, prompt, n + 1)))
  }

  /** The first step from `n` on at which generation ends or breaks. */
  function LastStep(m: Model, prompt: seq<Token>, req: Request, n: nat): (k: nat)
    ensures n <= k && (Ends(m, prompt, req, k) || Breaks(m, prompt, k))
    ensures forall i :: n <= i < k ==> !Ends(m, prompt, req, i) && !Breaks(m, prompt, i)
    decreases Max(AsI32(req.maxTokens) - n, 0)
  {
    if Ends(m, prompt, req, n) || Breaks(m, prompt, n) then n else LastStep(m, prompt, req, n + 1)
  }

  /** The prompt is decoded in pieces of at most `N_BATCH` tokens; every one must succeed. */
  predicate PromptDecodes(m: Model, prompt: seq<Token>, start: nat)
    requires start <= |prompt|
    decreases |prompt| - start
  {
    start == |prompt| ||
    var end := Min(start + N_BATCH, |prompt|);
    m.decodes(Feed(prompt[..end])) && PromptDecodes(m, prompt, end)
  }

  function ContextSize(m: Model): nat {
    Min(MAX_N_CTX, m.nCtxTrain)
  }

  /** What keeps generation from starting. */
  function Refusal(m: Model, prompt: seq<Token>): Option<Failure> {
    if |prompt| >= ContextSize(m) then Some(PromptTooLong)
    else if !PromptDecodes(m, prompt, 0) then Some(DecodeFailed)
    else None
  }

  /** The answer in one piece, read off the transcript. */
  function Answer(m: Model, prompt: seq<Token>, req: Request): Result<Response, Failure> {
    match Refusal(m, prompt)
    case Some(f) => Err(f)
    case None =>
      var k := LastStep(m, prompt, req, 0);
      var drawn := Drawn(m, prompt, k + 1);
      if !Ends(m, prompt, req, k) then Err(DecodeFailed)
      else if m.eog(TokenAt(m, prompt, k)) then Ok(Response(Text(m, drawn[..k]), |prompt|, k, Stop))
      else if EndsWithAny(Text(m, drawn), req.stops) then Ok(Response(Text(m, drawn), |prompt|, k, Stop))
      else Ok(Response(Text(m, drawn), |prompt|, k + 1, Length))
  }

  /** The message sent for step `i`. */
  function Sent(m: Model, prompt: seq<Token>, req: Request, i: nat): Item {
    var token := TokenAt(m, prompt, i);
    Piece(if m.eog(token) then "" else m.text(token), Ends(m, prompt, req, i))
  }

  function SentUpto(m: Model, prompt: seq<Token>, req: Request, n: nat): (r: seq<Item>)
    ensures |r| == n && forall i :: 0 <= i < n ==> r[i] == Sent(m, prompt, req, i)
  {
    if n == 0 then [] else SentUpto(m, prompt, req, n - 1) + [Sent(m, prompt, req, n - 1)]
  }

  /** Everything sent to a reader who never goes away, read off the transcript. */
  function Stream(m: Model, prompt: seq<Token>, req: Request): seq<Item> {
    match Refusal(m, prompt)
    case Some(f) => [Failed(f)]
    case None =>
      var k := LastStep(m, prompt, req, 0);
      SentUpto(m, prompt, req, k + 1) + if Ends(m, prompt, req, k) then [] else [Failed(DecodeFailed)]
  }

  lemma DrawnStep(m: Model, prompt: seq<Token>, n: nat)
    ensures Drawn(m, prompt, n + 1)[..n] == Drawn(m, prompt, n)
    ensures TokenAt(m, prompt, n) == m.sample(Feed(prompt + Drawn(m, prompt, n)), Drawn(m, prompt, n))
    ensures Drawn(m, prompt, n + 1) == Drawn(m, prompt, n) + [TokenAt(m, prompt, n)]
    ensures prompt + Drawn(m, prompt, n + 1) == (prompt + Drawn(m, prompt, n)) + [TokenAt(m, prompt, n)]
    ensures Text(m, Drawn(m, prompt, n + 1)) ==
            Text(m, Drawn(m, prompt, n)) + m.text(TokenAt(m, prompt, n))
  {
  }

  // ---- what answer and stream mean, in terms of tokens and decode calls ----

  /** These tokens in this order, at positions counted from zero. */
  ghost predicate Numbered(fed: seq<Fed>, tokens: seq<Token>) {
    |fed| == |tokens| && forall j :: 0 <= j < |fed| ==> fed[j] == Fed(tokens[j], j)
  }

  /** The model decodes these tokens. */
  ghost predicate Decodes(m: Model, tokens: seq<Token>) {
    exists fed :: Numbered(fed, tokens) && m.decodes(fed)
  }

  /** Each token is what is sampled when prompt and earlier tokens were fed and the latter accepted. */
  ghost predicate IsTranscript(m: Model, prompt: seq<Token>, tokens: seq<Token>) {
    forall i, fed :: 0 <= i < |tokens| && Numbered(fed, prompt + tokens[..i]) ==>
      tokens[i] == m.sample(fed, tokens[..i])
  }

  ghost predicate EndsIn(s: string, stops: seq<string>) {
    exists front, stop :: stop in stops && s == front + stop
  }

  /** The most tokens a request allows: one at least, and one for a number beyond 31 bits. */
  function Limit(maxTokens: u32): int {
    if 1 <= maxTokens < 0x8000_0000 then maxTokens as int else 1
  }

  /** The last of these tokens is not end-of-generation, and their text ends in no stop string. */
  ghost predicate GoesOn(m: Model, req: Request, tokens: seq<Token>)
    requires tokens != []
  {
    !m.eog(tokens[|tokens| - 1]) && !EndsIn(Text(m, tokens), req.stops)
  }

  /** None of the tokens ends generation. */
  ghost predicate Open(m: Model, req: Request, tokens: seq<Token>) {
    && |tokens| < Limit(req.maxTokens)
    && forall n :: 0 < n <= |tokens| ==> GoesOn(m, req, tokens[..n])
  }

  /** The last of the tokens ends generation and none before it does. */
  ghost predicate Complete(m: Model, req: Request, tokens: seq<Token>) {
    && tokens != []
    && var n := |tokens| - 1;
    && Open(m, req, tokens[..n])
    && (m.eog(tokens[n]) || EndsIn(Text(m, tokens), req.stops) || n + 1 == Limit(req.maxTokens))
  }

  /** All but the last of the tokens were fed back. */
  ghost predicate FedBack(m: Model, prompt: seq<Token>, tokens: seq<Token>) {
    forall n :: 0 < n < |tokens| ==> Decodes(m, prompt + tokens[..n])
  }

  /** The prompt goes in by pieces of 512 tokens. */
  ghost predicate PromptGoesIn(m: Model, prompt: seq<Token>) {
    forall n :: 0 < n <= |prompt| && (n % 512 == 0 || n == |prompt|) ==> Decodes(m, prompt[..n])
  }

  ghost predicate PromptFits(m: Model, prompt: seq<Token>) {
    |prompt| < 32_768 && |prompt| < m.nCtxTrain
  }

  /** The response made of complete tokens. A last token that is end-of-generation is not part of the
      text, and one that ends the answer early is not counted. */
  ghost predicate ResponseOf(m: Model, prompt: seq<Token>, req: Request, tokens: seq<Token>, r: Response)
    requires tokens != []
  {
    var n := |tokens| - 1;
    && r.tokensIn == |prompt|
    && if m.eog(tokens[n]) then r.content == Text(m, tokens[..n]) && r.tokensOut == n && r.finish == Stop
       else
         && r.content == Text(m, tokens)
         && if EndsIn(r.content, req.stops) then r.tokensOut == n && r.finish == Stop
            else r.tokensOut == n + 1 && r.finish == Length
  }

  /** Generation runs through these tokens to the end. */
  ghost predicate Succeeds(m: Model, prompt: seq<Token>, req: Request, tokens: seq<Token>) {
    && PromptFits(m, prompt) && PromptGoesIn(m, prompt)
    && IsTranscript(m, prompt, tokens) && FedBack(m, prompt, tokens) && Complete(m, req, tokens)
  }

  /** Generation draws these tokens and cannot feed back the last. */
  ghost predicate BreaksOff(m: Model, prompt: seq<Token>, req: Request, tokens: seq<Token>) {
    && PromptFits(m, prompt) && PromptGoesIn(m, prompt) && tokens != []
    && IsTranscript(m, prompt, tokens) && FedBack(m, prompt, tokens) && Open(m, req, tokens)
    && !Decodes(m, prompt + tokens)
  }

  ghost predicate AnswerFits(m: Model, prompt: seq<Token>, req: Request, r: Result<Response, Failure>) {
    match r
    case Ok(response) =>
      exists tokens :: Succeeds(m, prompt, req, tokens) && ResponseOf(m, prompt, req, tokens, response)
    case Err(PromptTooLong) => !PromptFits(m, prompt)
    case Err(DecodeFailed) =>
      PromptFits(m, prompt) && (PromptGoesIn(m, prompt) ==> exists tokens :: BreaksOff(m, prompt, req, tokens))
  }

  /** One message for each token, with its text unless it is end-of-generation. */
  ghost predicate Pieces(m: Model, tokens: seq<Token>, items: seq<Item>, ended: bool) {
    && |items| == |tokens|
    && forall i :: 0 <= i < |items| ==>
         items[i] == Piece(if m.eog(tokens[i]) then "" else m.text(tokens[i]), ended && i == |tokens| - 1)
  }

  lemma {:induction false} TextConcat(m: Model, x: seq<Token>, y: seq<Token>)
    ensures Text(m, x + y) == Text(m, x) + Text(m, y)
    ensures forall t :: Text(m, [t]) == m.text(t)
  {
    if y == [] {
      assert x + y == x;
    } else {
      var n := |y| - 1;
      assert (x + y)[..|x| + n] == x + y[..n];
      TextConcat(m, x, y[..n]);
    }
    forall t
      ensures Text(m, [t]) == m.text(t)
    {
      assert Text(m, []) == "" && [t][..0] == [];
    }
  }

  lemma NumberedIsFeed(fed: seq<Fed>, tokens: seq<Token>)
    ensures Numbered(fed, tokens) <==> fed == Feed(tokens)
  {
  }

  lemma DecodesFeed(m: Model, tokens: seq<Token>)
    ensures Decodes(m, tokens) <==> m.decodes(Feed(tokens))
  {
    NumberedIsFeed(Feed(tokens), tokens);
    if Decodes(m, tokens) {
      var fed :| Numbered(fed, tokens) && m.decodes(fed);
      NumberedIsFeed(fed, tokens);
    }
  }

  lemma EndsInIff(s: string, stops: seq<string>)
    ensures EndsWithAny(s, stops) <==> EndsIn(s, stops)
  {
    if EndsWithAny(s, stops) {
      var i :| 0 <= i < |stops| && EndsWith(s, stops[i]);
      assert s == s[..|s| - |stops[i]|] + stops[i];
    }
    if EndsIn(s, stops) {
      var front, stop :| stop in stops && s == front + stop;
      var i :| 0 <= i < |stops| && stops[i] == stop;
      assert EndsWith(s, stops[i]);
    }
  }

  lemma {:induction false} DrawnPrefix(m: Model, prompt: seq<Token>, n: nat, i: nat)
    requires i <= n
    ensures Drawn(m, prompt, n)[..i] == Drawn(m, prompt, i)
  {
    if i < n {
      DrawnPrefix(m, prompt, n - 1, i);
      DrawnStep(m, prompt, n - 1);
      assert Drawn(m, prompt, n)[..i] == Drawn(m, prompt, n)[..n - 1][..i];
    }
  }

  lemma DrawnIsTranscript(m: Model, prompt: seq<Token>, n: nat)
    ensures IsTranscript(m, prompt, Drawn(m, prompt, n))
  {
    var tokens := Drawn(m, prompt, n);
    forall i, fed | 0 <= i < n && Numbered(fed, prompt + tokens[..i])
      ensures tokens[i] == m.sample(fed, tokens[..i])
    {
      DrawnPrefix(m, prompt, n, i);
      DrawnPrefix(m, prompt, n, i + 1);
      DrawnStep(m, prompt, i);
      NumberedIsFeed(fed, prompt + tokens[..i]);
      assert tokens[i] == tokens[..i + 1][i];
    }
  }

  lemma DrawnGoesOn(m: Model, prompt: seq<Token>, req: Request, i: nat)
    requires !Ends(m, prompt, req, i)
    ensures GoesOn(m, req, Drawn(m, prompt, i + 1)) && i + 1 < Limit(req.maxTokens)
  {
    EndsInIff(Text(m, Drawn(m, prompt, i + 1)), req.stops);
  }

  /** Steps that do not end leave generation open. */
  lemma DrawnIsOpen(m: Model, prompt: seq<Token>, req: Request, n: nat)
    requires forall i :: 0 <= i < n ==> !Ends(m, prompt, req, i)
    ensures Open(m, req, Drawn(m, prompt, n))
  {
    var tokens := Drawn(m, prompt, n);
    forall k | 0 < k <= n
      ensures GoesOn(m, req, tokens[..k])
    {
      DrawnPrefix(m, prompt, n, k);
      DrawnGoesOn(m, prompt, req, k - 1);
    }
    if n > 0 {
      DrawnGoesOn(m, prompt, req, n - 1);
    }
  }

  lemma DrawnIsFedBack(m: Model, prompt: seq<Token>, n: nat)
    requires forall i :: 0 <= i < n - 1 ==> !Breaks(m, prompt, i)
    ensures FedBack(m, prompt, Drawn(m, prompt, n))
  {
    var tokens := Drawn(m, prompt, n);
    forall k | 0 < k < n
      ensures Decodes(m, prompt + tokens[..k])
    {
      assert !Breaks(m, prompt, k - 1);
      DrawnPrefix(m, prompt, n, k);
      DecodesFeed(m, prompt + tokens[..k]);
    }
  }

  /** Where a piece of the prompt ends. */
  predicate PieceEnds(prompt: seq<Token>, n: nat) {
    0 < n <= |prompt| && (n % 512 == 0 || n == |prompt|)
  }

  lemma {:induction false} PromptDecodesIff(m: Model, prompt: seq<Token>, start: nat)
    requires start <= |prompt| && (start % 512 == 0 || start == |prompt|)
    ensures PromptDecodes(m, prompt, start) <==>
            forall n :: start < n && PieceEnds(prompt, n) ==> Decodes(m, prompt[..n])
    decreases |prompt| - start
  {
    if start < |prompt| {
      var end := Min(start + N_BATCH, |prompt|);
      DecodesFeed(m, prompt[..end]);
      PromptDecodesIff(m, prompt, end);
      assert PieceEnds(prompt, end);
      assert forall n :: start < n && PieceEnds(prompt, n) ==> n >= end;
    }
  }

  lemma RefusalIff(m: Model, prompt: seq<Token>)
    ensures Refusal(m, prompt) == if !PromptFits(m, prompt) then Some(PromptTooLong)
                                  else if !PromptGoesIn(m, prompt) then Some(DecodeFailed)
                                  else None
  {
    PromptDecodesIff(m, prompt, 0);
    assert PromptGoesIn(m, prompt) <==> forall n :: 0 < n && PieceEnds(prompt, n) ==> Decodes(m, prompt[..n]);
  }

  lemma StepSucceeds(m: Model, prompt: seq<Token>, req: Request, k: nat)
    requires PromptFits(m, prompt) && PromptGoesIn(m, prompt) && Ends(m, prompt, req, k)
    requires forall i :: 0 <= i < k ==> !Ends(m, prompt, req, i) && !Breaks(m, prompt, i)
    ensures Succeeds(m, prompt, req, Drawn(m, prompt, k + 1))
  {
    var tokens := Drawn(m, prompt, k + 1);
    DrawnIsTranscript(m, prompt, k + 1);
    DrawnIsFedBack(m, prompt, k + 1);
    assert Complete(m, req, tokens) by {
      DrawnIsOpen(m, prompt, req, k);
      DrawnPrefix(m, prompt, k + 1, k);
      EndsInIff(Text(m, tokens), req.stops);
    }
  }

  lemma StepBreaksOff(m: Model, prompt: seq<Token>, req: Request, k: nat)
    requires PromptFits(m, prompt) && PromptGoesIn(m, prompt) && Breaks(m, prompt, k)
    requires forall i :: 0 <= i <= k ==> !Ends(m, prompt, req, i)
    requires forall i :: 0 <= i < k ==> !Breaks(m, prompt, i)
    ensures BreaksOff(m, prompt, req, Drawn(m, prompt, k + 1))
  {
    var tokens := Drawn(m, prompt, k + 1);
    DrawnIsTranscript(m, prompt, k + 1);
    DrawnIsFedBack(m, prompt, k + 1);
    DrawnIsOpen(m, prompt, req, k + 1);
    DecodesFeed(m, prompt + tokens);
  }

  /** The tokens drawn up to the last step: generation succeeds with them or breaks off behind them. */
  lemma LastStepDecides(m: Model, prompt: seq<Token>, req: Request)
    requires Refusal(m, prompt).None?
    ensures var k := LastStep(m, prompt, req, 0);
      if Ends(m, prompt, req, k) then Succeeds(m, prompt, req, Drawn(m, prompt, k + 1))
      else BreaksOff(m, prompt, req, Drawn(m, prompt, k + 1))
  {
    var k := LastStep(m, prompt, req, 0);
    RefusalIff(m, prompt);
    if Ends(m, prompt, req, k) {
      StepSucceeds(m, prompt, req, k);
    } else {
      StepBreaksOff(m, prompt, req, k);
    }
  }

  lemma AnswerIsOf(m: Model, prompt: seq<Token>, req: Request, tokens: seq<Token>)
    requires Refusal(m, prompt).None? && tokens == Drawn(m, prompt, LastStep(m, prompt, req, 0) + 1)
    ensures var answer := Answer(m, prompt, req);
      if answer.Ok? then Succeeds(m, prompt, req, tokens) && ResponseOf(m, prompt, req, tokens, answer.value)
      else answer.error == DecodeFailed && BreaksOff(m, prompt, req, tokens)
  {
    hide EndsIn, EndsWithAny, Succeeds, BreaksOff, Text, Ends, Drawn;
    var k := LastStep(m, prompt, req, 0);
    LastStepDecides(m, prompt, req);
    if Ends(m, prompt, req, k) {
      var response := Answer(m, prompt, req).value;
      assert ResponseOf(m, prompt, req, tokens, response) by {
        EndsInIff(Text(m, tokens), req.stops);
        assert tokens[k] == TokenAt(m, prompt, k);
      }
    }
  }

  /** The blocking answer is the response made of the tokens of the one transcript that is complete,
      or the failure of the first thing that fails. */
  lemma AnswerMeaning(m: Model, prompt: seq<Token>, req: Request)
    ensures AnswerFits(m, prompt, req, Answer(m, prompt, req))
  {
    RefusalIff(m, prompt);
    if Refusal(m, prompt).None? {
      AnswerIsOf(m, prompt, req, Drawn(m, prompt, LastStep(m, prompt, req, 0) + 1));
    }
  }

  /** In particular an answer counts the prompt's tokens and at most as many of its own as are allowed, and is
      cut for length only when it has them all. */
  lemma AnswerBounds(m: Model, prompt: seq<Token>, req: Request)
    ensures var answer := Answer(m, prompt, req);
      answer.Ok? ==>
        && answer.value.tokensIn == |prompt| && answer.value.tokensOut <= Limit(req.maxTokens)
        && (answer.value.finish == Length ==> answer.value.tokensOut == Limit(req.maxTokens))
  {
    hide Text, IsTranscript, FedBack, PromptGoesIn, PromptFits, GoesOn, EndsIn, BreaksOff;
    if Answer(m, prompt, req).Ok? {
      AnswerMeaning(m, prompt, req);
    }
  }

  lemma PiecesSent(m: Model, prompt: seq<Token>, req: Request)
    ensures var k := LastStep(m, prompt, req, 0);
      Pieces(m, Drawn(m, prompt, k + 1), SentUpto(m, prompt, req, k + 1), Ends(m, prompt, req, k))
  {
    var k := LastStep(m, prompt, req, 0);
    var tokens := Drawn(m, prompt, k + 1);
    forall i | 0 <= i <= k
      ensures TokenAt(m, prompt, i) == tokens[i]
      ensures i < k ==> !Ends(m, prompt, req, i)
    {
      DrawnPrefix(m, prompt, k + 1, i + 1);
      assert tokens[i] == tokens[..i + 1][i];
    }
  }

  /** The two ways a stream can go once the prompt is in. */
  ghost predicate StreamOf(m: Model, prompt: seq<Token>, req: Request, tokens: seq<Token>, items: seq<Item>) {
    || (Succeeds(m, prompt, req, tokens) && Pieces(m, tokens, items, true))
    || (&& BreaksOff(m, prompt, req, tokens) && |items| == |tokens| + 1
        && Pieces(m, tokens, items[..|tokens|], false) && items[|tokens|] == Failed(DecodeFailed))
  }

  /** A stream is a refusal, or one message for each token of the transcript that succeeds or breaks off. */
  ghost predicate StreamFits(m: Model, prompt: seq<Token>, req: Request, items: seq<Item>) {
    if !PromptFits(m, prompt) then items == [Failed(PromptTooLong)]
    else if !PromptGoesIn(m, prompt) then items == [Failed(DecodeFailed)]
    else exists tokens :: StreamOf(m, prompt, req, tokens, items)
  }

  lemma StreamMeaning(m: Model, prompt: seq<Token>, req: Request)
    ensures StreamFits(m, prompt, req, Stream(m, prompt, req))
  {
    RefusalIff(m, prompt);
    if Refusal(m, prompt).None? {
      StreamIsOf(m, prompt, req);
    }
  }

  lemma StreamIsOf(m: Model, prompt: seq<Token>, req: Request)
    requires Refusal(m, prompt).None?
    ensures StreamOf(m, prompt, req, Drawn(m, prompt, LastStep(m, prompt, req, 0) + 1), Stream(m, prompt, req))
  {
    hide Succeeds, BreaksOff, Ends, Drawn, SentUpto;
    var k := LastStep(m, prompt, req, 0);
    var tokens, sent := Drawn(m, prompt, k + 1), SentUpto(m, prompt, req, k + 1);
    LastStepDecides(m, prompt, req);
    PiecesSent(m, prompt, req);
    if Ends(m, prompt, req, k) {
      assert sent + [] == sent;
    } else {
      assert (sent + [Failed(DecodeFailed)])[..|tokens|] == sent;
    }
  }

  // ---- the model's context and batch ----

  datatype BatchItem = BatchItem(token: Token, pos: int, logits: bool)

  function Plain(items: seq<BatchItem>): seq<Fed> {
    seq(|items|, i requires 0 <= i < |items| => Fed(items[i].token, items[i].pos))
  }

  class Batch {
    var items: seq<BatchItem>

    constructor ()
      ensures items == []
    {
      items := [];
    }

    method Clear()
      modifies this
      ensures items == []
    {
      items := [];
    }

    /** Fails when the batch is full. */
    method Add(token: Token, pos: int, logits: bool) returns (ok: bool)
      modifies this
      ensures ok <==> |old(items)| < N_BATCH
      ensures items == old(items) + if ok then [BatchItem(token, pos, logits)] else []
    {
      ok := |items| < N_BATCH;
      if ok {
        items := items + [BatchItem(token, pos, logits)];
      }
    }
  }

  class Context {
    const model: Model
    var fed: seq<Fed>
    var last: seq<BatchItem>

    constructor (model: Model)
      ensures this.model == model && fed == [] && last == []
    {
      this.model, fed, last := model, [], [];
    }

    method Decode(batch: Batch) returns (ok: bool)
      modifies this
      ensures ok <==> model.decodes(old(fed) + Plain(batch.items))
      ensures ok ==> fed == old(fed) + Plain(batch.items) && last == batch.items
      ensures !ok ==> fed == old(fed) && last == old(last)
    {
      ok := model.decodes(fed + Plain(batch.items));
      if ok {
        fed, last := fed + Plain(batch.items), batch.items;
      }
    }

    /** Sample from the logits of item `idx` of the last batch: it must be the newest token and
        must have asked for logits. */
    method Sample(idx: int, accepted: seq<Token>) returns (token: Token)
      requires 0 <= idx == |last| - 1 && last[idx].logits
      ensures token == model.sample(fed, accepted)
    {
      token := model.sample(fed, accepted);
    }

    /** Everything fed so far is `tokens` at positions 0, 1, 2, ..., and the last batch is still in
        `batch`, its last item ready to be sampled. */
    ghost predicate Holds(batch: Batch, tokens: seq<Token>)
      reads this, batch
    {
      && fed == Feed(tokens)
      && last == batch.items
      && last != [] && last[|last| - 1].logits
    }
  }

  /** Decode the prompt in pieces; the last piece stays in the batch. */
  method DecodePrompt(ctx: Context, batch: Batch, tokens: seq<Token>) returns (ok: bool)
    requires ctx.fed == [] && batch.items == [] && tokens != []
    modifies ctx, batch
    ensures ok <==> PromptDecodes(ctx.model, tokens, 0)
    ensures ok ==> ctx.Holds(batch, tokens)
    ensures ctx.fed <= Feed(tokens)
  {
    var n, start := |tokens|, 0;
    while start < n
      invariant 0 <= start <= n
      invariant ctx.fed == Feed(tokens[..start])
      invariant start < n ==> batch.items == []
      invariant start == n ==> ctx.Holds(batch, tokens)
      invariant PromptDecodes(ctx.model, tokens, 0) <==> PromptDecodes(ctx.model, tokens, start)
    {
      var end := Min(start + N_BATCH, n);
      for i := 0 to end - start
        invariant ctx.fed == Feed(tokens[..start]) && |batch.items| == i
        invariant forall j :: 0 <= j < i ==>
          batch.items[j] == BatchItem(tokens[start + j], start + j, start + j == n - 1)
      {
        var added := batch.Add(tokens[start + i], start + i, start + i == n - 1);
        if !added {
          assert false;
          return false;
        }
      }
      assert Feed(tokens[..start]) + Plain(batch.items) == Feed(tokens[..end]);
      assert Feed(tokens[..start]) <= Feed(tokens);
      ok := ctx.Decode(batch);
      if !ok {
        return;
      }
      if end < n {
        batch.Clear();
      }
      start := end;
      assert tokens[..n] == tokens;
    }
    ok := true;
  }

  /** A token is fed back at the next position. */
  method FeedBack(ctx: Context, batch: Batch, token: Token, pos: int, ghost tokens: seq<Token>)
    returns (ok: bool)
    requires ctx.Holds(batch, tokens) && pos == |tokens|
    modifies ctx, batch
    ensures ok <==> ctx.model.decodes(Feed(tokens + [token]))
    ensures ok ==> ctx.Holds(batch, tokens + [token])
    ensures ctx.fed == if ok then Feed(tokens + [token]) else Feed(tokens)
  {
    batch.Clear();
    var added := batch.Add(token, pos, true);
    FeedConcat(tokens, token);
    assert Plain(batch.items) == [Fed(token, pos)];
    ok := ctx.Decode(batch);
  }

  /** The blocking loop. `fed` is everything the model was given. */
  method GenerateSync(m: Model, prompt: seq<Token>, req: Request)
    returns (r: Result<Response, Failure>, ghost fed: seq<Fed>)
    requires prompt != []
    ensures r == Answer(m, prompt, req)
    ensures r.Ok? ==> r.value.tokensIn == |prompt| && r.value.tokensOut <= Limit(req.maxTokens)
    ensures r.Ok? && r.value.finish == Length ==> r.value.tokensOut == Limit(req.maxTokens)
    ensures exists n :: fed <= Feed(prompt + Drawn(m, prompt, n))
  {
    fed := [];
    assert fed <= Feed(prompt + Drawn(m, prompt, 0));
    var nPrompt := |prompt|;
    if nPrompt >= ContextSize(m) {
      return Err(PromptTooLong), fed;
    }
    var ctx := new Context(m);
    var batch := new Batch();
    var decoded := DecodePrompt(ctx, batch, prompt);
    fed := ctx.fed;
    assert prompt + Drawn(m, prompt, 0) == prompt;
    assert fed <= Feed(prompt + Drawn(m, prompt, 0));
    if !decoded {
      return Err(DecodeFailed), fed;
    }
    var accepted: seq<Token>, output, nCur, finish := [], "", nPrompt, Length;
    ghost var i := 0;
    while true
      invariant nCur == nPrompt + i && accepted == Drawn(m, prompt, i)
      invariant ctx.model == m && ctx.Holds(batch, prompt + accepted)
      invariant output == Text(m, accepted)
      invariant LastStep(m, prompt, req, 0) == LastStep(m, prompt, req, i)
      invariant fed == ctx.fed && finish == Length
      decreases AsI32(req.maxTokens) - i
    {
      var token := ctx.Sample(|batch.items| - 1, accepted);
      accepted := accepted + [token];
      DrawnStep(m, prompt, i);
      if m.eog(token) {
        finish := Stop;
        break;
      }
      output := output + m.text(token);
      if EndsWithAny(output, req.stops) {
        finish := Stop;
        break;
      }
      nCur := nCur + 1;
      if nCur - nPrompt >= AsI32(req.maxTokens) {
        break;
      }
      var ok := FeedBack(ctx, batch, token, nCur - 1, prompt + Drawn(m, prompt, i));
      if !ok {
        return Err(DecodeFailed), fed;
      }
      fed := ctx.fed;
      i := i + 1;
    }
    r := Ok(Response(output, nPrompt, nCur - nPrompt, finish));
    AnswerBounds(m, prompt, req);
  }

  /** The sending side of the channel: the reader takes `patience` messages and goes away. */
  class Channel {
    const patience: nat
    var sent: seq<Item>

    constructor (patience: nat)
      ensures this.patience == patience && sent == []
    {
      this.patience, sent := patience, [];
    }

    method Send(item: Item) returns (ok: bool)
      modifies this
      ensures ok <==> |old(sent)| < patience
      ensures sent == old(sent) + if ok then [item] else []
    {
      ok := |sent| < patience;
      if ok {
        sent := sent + [item];
      }
    }
  }

  /** Step `i`, once reached, sends its message next. */
  lemma StreamReaches(m: Model, prompt: seq<Token>, req: Request, i: nat)
    requires Refusal(m, prompt).None?
    requires i <= LastStep(m, prompt, req, 0)
    ensures SentUpto(m, prompt, req, i + 1) <= Stream(m, prompt, req)
  {
    var k := LastStep(m, prompt, req, 0);
    SentPrefix(m, prompt, req, i + 1, k + 1);
    assert SentUpto(m, prompt, req, k + 1) <= Stream(m, prompt, req);
  }

  /** If step `i`, once reached, ends or breaks, that closes the stream. */
  lemma StreamCloses(m: Model, prompt: seq<Token>, req: Request, i: nat)
    requires Refusal(m, prompt).None?
    requires LastStep(m, prompt, req, 0) == LastStep(m, prompt, req, i)
    requires Ends(m, prompt, req, i) || Breaks(m, prompt, i)
    ensures Stream(m, prompt, req) ==
            SentUpto(m, prompt, req, i + 1) + if Ends(m, prompt, req, i) then [] else [Failed(DecodeFailed)]
  {
    assert LastStep(m, prompt, req, 0) == i;
  }

  lemma TakePrefix(stream: seq<Item>, front: seq<Item>, item: Item, patience: nat)
    requires front + [item] <= stream && |front| <= patience
    ensures |front| == patience ==> Take(stream, patience) == front
    ensures |front| < patience && stream == front + [item] ==> Take(stream, patience) == front + [item]
  {
    assert stream[..|front|] == front;
  }

  /** What the reader has, once step `i` is reached and its message is sent or refused. */
  lemma SendStep(m: Model, prompt: seq<Token>, req: Request, i: nat, patience: nat)
    requires Refusal(m, prompt).None? && i <= patience
    requires LastStep(m, prompt, req, 0) == LastStep(m, prompt, req, i)
    ensures i == patience ==> Take(Stream(m, prompt, req), patience) == SentUpto(m, prompt, req, i)
    ensures i < patience && Ends(m, prompt, req, i) ==>
            Take(Stream(m, prompt, req), patience) == SentUpto(m, prompt, req, i + 1)
    ensures !Ends(m, prompt, req, i) && Breaks(m, prompt, i) ==>
            Stream(m, prompt, req) == SentUpto(m, prompt, req, i + 1) + [Failed(DecodeFailed)]
  {
    var front, item := SentUpto(m, prompt, req, i), Sent(m, prompt, req, i);
    StreamReaches(m, prompt, req, i);
    if Ends(m, prompt, req, i) || Breaks(m, prompt, i) {
      StreamCloses(m, prompt, req, i);
      assert (front + [item]) + [] == front + [item];
    }
    TakePrefix(Stream(m, prompt, req), front, item, patience);
  }

  lemma SentPrefix(m: Model, prompt: seq<Token>, req: Request, i: nat, n: nat)
    requires i <= n
    ensures SentUpto(m, prompt, req, i) <= SentUpto(m, prompt, req, n)
  {
  }

  /** The streaming loop, once the prompt is decoded. */
  method StreamTokens(ctx: Context, batch: Batch, prompt: seq<Token>, req: Request, tx: Channel)
    requires ctx.Holds(batch, prompt) && Refusal(ctx.model, prompt).None? && tx.sent == []
    modifies ctx, batch, tx
    ensures tx.sent == Take(Stream(ctx.model, prompt, req), tx.patience)
    ensures exists n :: ctx.fed <= Feed(prompt + Drawn(ctx.model, prompt, n))
  {
    var m, nPrompt := ctx.model, |prompt|;
    var accepted: seq<Token>, nCur, emitted := [], nPrompt, "";
    ghost var i, fed := 0, prompt;
    assert prompt + accepted == prompt;
    while true
      invariant nCur == nPrompt + i && accepted == Drawn(m, prompt, i)
      invariant fed == prompt + accepted && ctx.Holds(batch, fed)
      invariant req.stops != [] ==> emitted == Text(m, accepted)
      invariant tx.sent == SentUpto(m, prompt, req, i) && i <= tx.patience
      invariant LastStep(m, prompt, req, 0) == LastStep(m, prompt, req, i)
      decreases AsI32(req.maxTokens) - i
    {
      var token := ctx.Sample(|batch.items| - 1, accepted);
      accepted := accepted + [token];
      DrawnStep(m, prompt, i);
      var isEog := m.eog(token);
      var nNew := nCur - nPrompt + 1;
      var text := if isEog then "" else m.text(token);
      var hitStop := false;
      if req.stops != [] {
        emitted := emitted + text;
        hitStop := EndsWithAny(emitted, req.stops);
      }
      var isLast := isEog || hitStop || nNew >= AsI32(req.maxTokens);
      assert Sent(m, prompt, req, i) == Piece(text, isLast);
      SendStep(m, prompt, req, i, tx.patience);
      var open := tx.Send(Piece(text, isLast));
      assert ctx.fed == Feed(prompt + Drawn(m, prompt, i));
      if !open || isLast {
        return;
      }
      nCur := nCur + 1;
      var ok := FeedBack(ctx, batch, token, nCur - 1, fed);
      fed := fed + [token];
      assert fed == prompt + Drawn(m, prompt, i + 1);
      if !ok {
        var _ := tx.Send(Failed(DecodeFailed));
        return;
      }
      i := i + 1;
    }
  }

  /** Streaming generation. `fed` is everything the model was given. */
  method StreamSync(m: Model, prompt: seq<Token>, req: Request, tx: Channel)
    returns (ghost fed: seq<Fed>)
    requires prompt != [] && tx.sent == []
    modifies tx
    ensures tx.sent == Take(Stream(m, prompt, req), tx.patience)
    ensures exists n :: fed <= Feed(prompt + Drawn(m, prompt, n))
  {
    fed := [];
    assert fed <= Feed(prompt + Drawn(m, prompt, 0));
    if |prompt| >= ContextSize(m) {
      var _ := tx.Send(Failed(PromptTooLong));
      return;
    }
    var ctx := new Context(m);
    var batch := new Batch();
    var decoded := DecodePrompt(ctx, batch, prompt);
    fed := ctx.fed;
    assert prompt + Drawn(m, prompt, 0) == prompt;
    assert fed <= Feed(prompt + Drawn(m, prompt, 0));
    if !decoded {
      var _ := tx.Send(Failed(DecodeFailed));
      return;
    }
    StreamTokens(ctx, batch, prompt, req, tx);
    fed := ctx.fed;
  }

  // ---- the two loops agree ----

  function Texts(items: seq<Item>): string {
    if items == [] then ""
    else
      var last := items[|items| - 1];
      Texts(items[..|items| - 1]) + if last.Piece? then last.text else ""
  }

  lemma {:induction false} TextsOfSent(m: Model, prompt: seq<Token>, req: Request, n: nat)
    requires forall i :: 0 <= i < n ==> !m.eog(TokenAt(m, prompt, i))
    ensures Texts(SentUpto(m, prompt, req, n)) == Text(m, Drawn(m, prompt, n))
  {
    if n > 0 {
      TextsOfSent(m, prompt, req, n - 1);
      DrawnStep(m, prompt, n - 1);
      SentSnoc(m, prompt, req, n - 1);
    }
  }

  lemma SentSnoc(m: Model, prompt: seq<Token>, req: Request, n: nat)
    ensures Texts(SentUpto(m, prompt, req, n + 1)) ==
            Texts(SentUpto(m, prompt, req, n)) + Sent(m, prompt, req, n).text
  {
    assert SentUpto(m, prompt, req, n + 1)[..n] == SentUpto(m, prompt, req, n);
  }

  lemma {:induction false} TextsOfLast(m: Model, prompt: seq<Token>, req: Request)
    ensures var k := LastStep(m, prompt, req, 0);
      Texts(SentUpto(m, prompt, req, k + 1)) ==
      Text(m, Drawn(m, prompt, if m.eog(TokenAt(m, prompt, k)) then k else k + 1))
  {
    var k := LastStep(m, prompt, req, 0);
    forall i | 0 <= i < k
      ensures !m.eog(TokenAt(m, prompt, i))
    {
      assert !Ends(m, prompt, req, i);
    }
    TextsOfSent(m, prompt, req, k);
    SentSnoc(m, prompt, req, k);
    DrawnStep(m, prompt, k);
  }

  lemma OnlyEndIsLast(m: Model, prompt: seq<Token>, req: Request, i: nat)
    requires i < LastStep(m, prompt, req, 0)
    ensures !Sent(m, prompt, req, i).isLast
  {
    assert !Ends(m, prompt, req, i);
  }

  /** What the stream looks like, given where generation stops. */
  lemma StreamShape(m: Model, prompt: seq<Token>, req: Request)
    requires Refusal(m, prompt).None?
    ensures var items, k := Stream(m, prompt, req), LastStep(m, prompt, req, 0);
      && |items| == (if Ends(m, prompt, req, k) then k + 1 else k + 2)
      && (forall i :: 0 <= i < k ==> items[i].Piece? && !items[i].isLast)
      && items[k].Piece? && items[k].isLast == Ends(m, prompt, req, k)
      && (!Ends(m, prompt, req, k) ==> items[k + 1] == Failed(DecodeFailed))
  {
    var k := LastStep(m, prompt, req, 0);
    forall i | 0 <= i < k
      ensures !Stream(m, prompt, req)[i].isLast
    {
      OnlyEndIsLast(m, prompt, req, i);
    }
  }

  /** The answer, when generation ends: its text and how many tokens it counts. */
  lemma AnswerShape(m: Model, prompt: seq<Token>, req: Request)
    requires Refusal(m, prompt).None? && Ends(m, prompt, req, LastStep(m, prompt, req, 0))
    ensures var r, k := Answer(m, prompt, req), LastStep(m, prompt, req, 0);
      && r.Ok?
      && r.value.content == Text(m, Drawn(m, prompt, if m.eog(TokenAt(m, prompt, k)) then k else k + 1))
      && r.value.tokensOut + (if r.value.finish.Stop? then 1 else 0) == k + 1
  {
    DrawnStep(m, prompt, LastStep(m, prompt, req, 0));
  }

  lemma StreamWhenEnded(m: Model, prompt: seq<Token>, req: Request)
    requires Refusal(m, prompt).None? && Ends(m, prompt, req, LastStep(m, prompt, req, 0))
    ensures Stream(m, prompt, req) == SentUpto(m, prompt, req, LastStep(m, prompt, req, 0) + 1)
  {
    var sent := SentUpto(m, prompt, req, LastStep(m, prompt, req, 0) + 1);
    assert sent + [] == sent;
  }

  /** Streaming and blocking generation produce the same text; exactly the final streamed token is
      marked last; and one fails exactly when the other does, with the same failure, which the
      stream delivers as its final message with no token marked last. */
  lemma StreamAgreesWithAnswer(m: Model, prompt: seq<Token>, req: Request)
    ensures Stream(m, prompt, req) != []
    ensures var items := Stream(m, prompt, req);
      match Answer(m, prompt, req)
      case Ok(r) =>
        && Texts(items) == r.content
        && (forall i :: 0 <= i < |items| ==> items[i].Piece? && (items[i].isLast <==> i == |items| - 1))
        && |items| == r.tokensOut + (if r.finish.Stop? then 1 else 0)
      case Err(f) =>
        && items[|items| - 1] == Failed(f)
        && forall i :: 0 <= i < |items| - 1 ==> items[i].Piece? && !items[i].isLast
  {
    if Refusal(m, prompt).None? {
      var k := LastStep(m, prompt, req, 0);
      StreamShape(m, prompt, req);
      if Ends(m, prompt, req, k) {
        TextsOfLast(m, prompt, req);
        StreamWhenEnded(m, prompt, req);
        AnswerShape(m, prompt, req);
      }
    }
  }

  /** What the model is fed has no gap in its positions and starts with the prompt. */
  lemma FedHasNoGap(m: Model, prompt: seq<Token>, n: nat, fed: seq<Fed>)
    requires fed <= Feed(prompt + Drawn(m, prompt, n))
    ensures forall i :: 0 <= i < |fed| ==> fed[i].pos == i
    ensures forall i :: 0 <= i < |fed| && i < |prompt| ==> fed[i].token == prompt[i]
  {
  }
}
