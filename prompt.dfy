/** The user prompt: the reply template with its holes filled by the author
    handle (twice), the tweet content, the donation address and the two
    length bounds, as `str.format` fills them. */
module Prompt {
  import opened Settings
  import Decimal
  import Text

  // The template's instruction prose is kept abstract: each stand-in below
  // names the passage it replaces. The text next to every hole is exact.

  const PERSONA: string := "[persona and story]"
  const GOAL: string := "[task]"
  const RULES_HEADER: string := "[rules]"
  const OPENING_REST: string := "[quote the tweet]"
  const MIDDLE_RULE: string := "[2. story]"
  const ENDING_RULE: string := "[3. call for support]"
  const SYMBOL_RULES: string := "[emojis, hashtags]"
  const STYLE_RULES: string := "[language, tone]"
  const CLOSING: string := "[output one reply]"

  /** The template as its literal segments, in order, between the holes.
      Both `{author}` holes follow an `@`, which `Fill` writes itself. */
  datatype Template = Template(
    authorLineStart: string,
    beforeTweet: string,
    openingRuleStart: string,
    beforeAddress: string,
    beforeMinLen: string,
    betweenBounds: string,
    afterMaxLen: string)

  /** The reply template, from its opening brief to its closing line. */
  const REPLY_TEMPLATE: Template := Template(
    PERSONA + "\n\n" + GOAL + "\n\nOriginal tweet author: ",
    "\nOriginal tweet content:\n",
    "\n\n" + RULES_HEADER + "\n\n1. **Opening (first sentence)**: Must start with ",
    ". " + OPENING_REST + "\n\n" + MIDDLE_RULE + "\n\n" + ENDING_RULE
    + "\n\n4. **Required elements**:\n   - Donation address: write out in full BSC: ",
    "\n   - " + SYMBOL_RULES + "\n\n5. **Other requirements**:\n   - Length: ",
    "-",
    " characters (suitable for X replies)\n   - " + STYLE_RULES + "\n\n" + CLOSING + "\n")

  /** `str.format` on a template: each hole replaced by its value. */
  function Fill(t: Template, tweetContent: string, author: string, address: string, minLen: string, maxLen: string): string {
    Head(t, author) + tweetContent + Tail(t, author, address, minLen, maxLen)
  }

  /** `build_prompt`: the reply template filled with the tweet, its author,
      the donation address and the two length bounds. */
  function BuildPrompt(tweetContent: string, author: string): string {
    Fill(REPLY_TEMPLATE, tweetContent, author, DONATION_ADDRESS,
         Decimal.FromNat(REPLY_MIN_LEN), Decimal.FromNat(REPLY_MAX_LEN))
  }

  /** A filled template up to its `{tweet_content}` hole. */
  function Head(t: Template, author: string): string {
    t.authorLineStart + ("@" + author) + t.beforeTweet
  }

  /** A filled template after its `{tweet_content}` hole. */
  function Tail(t: Template, author: string, address: string, minLen: string, maxLen: string): string {
    t.openingRuleStart + ("@" + author) + (t.beforeAddress + Ending(t, address, minLen, maxLen))
  }

  /** A filled template from its `{address}` hole on. */
  function Ending(t: Template, address: string, minLen: string, maxLen: string): string {
    (address + t.beforeMinLen) + (minLen + t.betweenBounds + maxLen) + t.afterMaxLen
  }

  /** The tweet content read back out of a prompt built for `author`: what
      lies between the fixed head and the fixed tail. */
  function TweetOf(prompt: string, author: string): string {
    var head := |Head(REPLY_TEMPLATE, author)|;
    var tail := |Tail(REPLY_TEMPLATE, author, DONATION_ADDRESS,
                      Decimal.FromNat(REPLY_MIN_LEN), Decimal.FromNat(REPLY_MAX_LEN))|;
    if head + tail <= |prompt| then prompt[head..|prompt| - tail] else []
  }

  /** The prompt carries the tweet content verbatim: it can be read back
      out, so two different tweets never give the same prompt. */
  lemma TweetRoundTrip(tweetContent: string, author: string)
    ensures TweetOf(BuildPrompt(tweetContent, author), author) == tweetContent
  {
    var minLen, maxLen := Decimal.FromNat(REPLY_MIN_LEN), Decimal.FromNat(REPLY_MAX_LEN);
    Text.InfixAt(Head(REPLY_TEMPLATE, author), tweetContent, Tail(REPLY_TEMPLATE, author, DONATION_ADDRESS, minLen, maxLen));
  }

  /** In any filled template each author hole follows its `@`. */
  lemma FillQuotesAuthor(t: Template, tweetContent: string, author: string, address: string, minLen: string, maxLen: string)
    ensures var p := Fill(t, tweetContent, author, address, minLen, maxLen);
      var first := |t.authorLineStart|;
      var second := |Head(t, author)| + |tweetContent| + |t.openingRuleStart|;
      && second + 1 + |author| <= |p|
      && p[first..first + 1 + |author|] == "@" + author
      && p[second..second + 1 + |author|] == "@" + author
  {
    var q := "@" + author;
    var head := Head(t, author);
    var tail := Tail(t, author, address, minLen, maxLen);
    Text.InfixAt(t.authorLineStart, q, t.beforeTweet);
    Text.SliceOfLeft(head + tweetContent, tail, |t.authorLineStart|, |t.authorLineStart| + |q|);
    Text.SliceOfLeft(head, tweetContent, |t.authorLineStart|, |t.authorLineStart| + |q|);
    var rest := t.beforeAddress + Ending(t, address, minLen, maxLen);
    Text.InfixAt(t.openingRuleStart, q, rest);
    Text.SliceOfRight(head + tweetContent, tail, |t.openingRuleStart|, |t.openingRuleStart| + |q|);
  }

  /** The author handle is quoted twice in the prompt, each time right
      after an `@`: on the "Original tweet author" line and in the opening
      rule. */
  lemma QuotesAuthorTwice(tweetContent: string, author: string)
    ensures var p := BuildPrompt(tweetContent, author);
      var first := |REPLY_TEMPLATE.authorLineStart|;
      var second := |Head(REPLY_TEMPLATE, author)| + |tweetContent| + |REPLY_TEMPLATE.openingRuleStart|;
      && second + 1 + |author| <= |p|
      && p[first..first + 1 + |author|] == "@" + author
      && p[second..second + 1 + |author|] == "@" + author
  {
    FillQuotesAuthor(REPLY_TEMPLATE, tweetContent, author, DONATION_ADDRESS,
                     Decimal.FromNat(REPLY_MIN_LEN), Decimal.FromNat(REPLY_MAX_LEN));
  }

  /** Any filled template ends with the template filled from its
      `{address}` hole on, whatever the tweet and the author. */
  lemma FillEnding(t: Template, tweetContent: string, author: string, address: string, minLen: string, maxLen: string)
    ensures var p := Fill(t, tweetContent, author, address, minLen, maxLen);
      var e := Ending(t, address, minLen, maxLen);
      |e| <= |p| && p[|p| - |e|..] == e
  {
    var front := Head(t, author) + tweetContent + (t.openingRuleStart + ("@" + author) + t.beforeAddress);
    assert Fill(t, tweetContent, author, address, minLen, maxLen) == front + Ending(t, address, minLen, maxLen);
  }

  /** That ending opens with the address, and after the text before the
      `{min_len}` hole holds the two bounds with their separator. */
  lemma EndingLayout(t: Template, address: string, minLen: string, maxLen: string)
    ensures var e := Ending(t, address, minLen, maxLen);
      var k := |address| + |t.beforeMinLen|;
      var bounds := minLen + t.betweenBounds + maxLen;
      && e[..|address|] == address
      && k + |bounds| <= |e| && e[k..k + |bounds|] == bounds
  {
    Text.InfixAt(address + t.beforeMinLen, minLen + t.betweenBounds + maxLen, t.afterMaxLen);
  }

  /** The two length bounds in decimal. */
  lemma BoundsRendered()
    ensures Decimal.FromNat(REPLY_MIN_LEN) == "80"
    ensures Decimal.FromNat(REPLY_MAX_LEN) == "200"
  {
    assert Decimal.FromNat(2) == "2";
    assert Decimal.FromNat(20) == "20";
  }

  /** Every prompt ends with the same text, whatever the tweet and the
      author: the template filled from its `{address}` hole on. */
  lemma EndsWithCommonEnding(tweetContent: string, author: string)
    ensures var p := BuildPrompt(tweetContent, author);
      var e := Ending(REPLY_TEMPLATE, DONATION_ADDRESS, Decimal.FromNat(REPLY_MIN_LEN), Decimal.FromNat(REPLY_MAX_LEN));
      |e| <= |p| && p[|p| - |e|..] == e
  {
    FillEnding(REPLY_TEMPLATE, tweetContent, author, DONATION_ADDRESS,
               Decimal.FromNat(REPLY_MIN_LEN), Decimal.FromNat(REPLY_MAX_LEN));
  }

  /** That common ending starts with the donation address and further on
      holds the two length bounds with a `-` between them, which
      `BoundsRendered` shows are "80" and "200". */
  lemma EndingQuotesAddressAndBounds()
    ensures var minLen, maxLen := Decimal.FromNat(REPLY_MIN_LEN), Decimal.FromNat(REPLY_MAX_LEN);
      var e := Ending(REPLY_TEMPLATE, DONATION_ADDRESS, minLen, maxLen);
      var k := |DONATION_ADDRESS| + |REPLY_TEMPLATE.beforeMinLen|;
      && e[..|DONATION_ADDRESS|] == DONATION_ADDRESS
      && k + |minLen| + 1 + |maxLen| <= |e| && e[k..k + |minLen| + 1 + |maxLen|] == minLen + "-" + maxLen
  {
    EndingLayout(REPLY_TEMPLATE, DONATION_ADDRESS, Decimal.FromNat(REPLY_MIN_LEN), Decimal.FromNat(REPLY_MAX_LEN));
  }
}
