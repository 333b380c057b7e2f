/**
 The SQL extraction of the `/generate_sql` handler (server.js:49-61).

 The handler reads `data.choices[0].message.content` from the chat-completion
 response. When that is missing or empty it answers with a fixed sentence.
 Otherwise it matches the content against the regular expression
 /```(?:sql)?\s*([\s\S]*?)\s*```/i and answers with the trimmed capture group,
 or with the whole content trimmed when there is no match or the group is empty.

 Here the regular expression is an explicit first-match search. The match
 starts at the leftmost fence "```". An optional `sql` tag, in any case, is
 taken greedily, and then the longest run of white space. The lazy group runs
 from there to the first fence at or after that point, minus the trailing white
 space, which the closing `\s*` takes. Backtracking never finds a different
 first match: tag letters and white space are not backticks, so giving them
 back cannot move the closing fence.
 */
module Extractor {
  import opened Ascii

  datatype Option<T> = None | Some(value: T)

  /** The parts of the decoded chat-completion response that the handler reads. */
  datatype Message = Message(content: Option<string>)
  datatype Choice = Choice(message: Option<Message>)
  datatype Completion = Completion(choices: Option<seq<Choice>>)

  /** The answer when the response carries no content (server.js:49). */
  const NoSql: string := "No SQL returned."

  /** The guard of server.js:50-52: `choices[0].message.content`, when every link exists and the content is a non-empty string. */
  function Content(data: Completion): (content: Option<string>)
    ensures content.Some? ==> content.value != []
  {
    match data.choices
    case None => None
    case Some(choices) =>
      if |choices| == 0 then None
      else
        match choices[0].message
        case None => None
        case Some(message) =>
          if message.content == Some([]) then None else message.content
  }

  // ---------------------------------------------------------------------------
  // The pieces of the regular expression

  /** A fence "```" starts at `k`. */
  predicate FenceAt(s: string, k: nat) {
    k + 3 <= |s| && s[k] == '`' && s[k + 1] == '`' && s[k + 2] == '`'
  }

  /** The tag `sql`, in any case, starts at `k` (the /i flag). */
  predicate SqlTagAt(s: string, k: nat) {
    k + 3 <= |s| && Upper(s[k]) == 'S' && Upper(s[k + 1]) == 'Q' && Upper(s[k + 2]) == 'L'
  }

  /** The first fence at or after `from`. */
  function FindFence(s: string, from: nat): (r: Option<nat>)
    ensures r.Some? ==> from <= r.value && FenceAt(s, r.value)
    ensures r.Some? ==> forall k: nat :: from <= k < r.value ==> !FenceAt(s, k)
    ensures r.None? ==> forall k: nat :: from <= k ==> !FenceAt(s, k)
    decreases |s| - from
  {
    if from + 3 > |s| then None
    else if FenceAt(s, from) then Some(from)
    else FindFence(s, from + 1)
  }

  /** Where a match lies: the opening fence, the start of the group, the closing fence. */
  datatype Span = Span(open: nat, body: nat, close: nat)

  /** Where the group may start: after the opening fence and, if present, the tag. */
  function AfterTag(s: string, open: nat): nat {
    open + 3 + if SqlTagAt(s, open + 3) then 3 else 0
  }

  /** The first match of /```(?:sql)?\s*([\s\S]*?)\s*```/i in `s`. */
  function FenceMatch(s: string): (m: Option<Span>)
    ensures m.Some? ==> m.value.open + 3 <= m.value.body <= m.value.close && m.value.close + 3 <= |s|
  {
    match FindFence(s, 0)
    case None => None
    case Some(open) =>
      var t := AfterTag(s, open);
      var body := SpaceEnd(s, t);
      match FindFence(s, body)
      case None => None
      case Some(close) => Some(Span(open, body, close))
  }

  /** A match opens at the leftmost fence, its group starts after the tag and the white space that
      follows, and it closes at the first fence from there on. */
  lemma MatchIsFirst(s: string, span: Span)
    requires FenceMatch(s) == Some(span)
    ensures FenceAt(s, span.open) && forall k: nat :: k < span.open ==> !FenceAt(s, k)
    ensures FenceAt(s, span.close) && forall k: nat :: span.body <= k < span.close ==> !FenceAt(s, k)
    ensures var t := AfterTag(s, span.open);
      && t <= span.body <= span.close
      && (forall i :: t <= i < span.body ==> IsSpace(s[i]))
      && !IsSpace(s[span.body])
  {
  }

  /** The regular expression matches exactly when `s` holds two fences that do not overlap. */
  lemma MatchIffTwoFences(s: string)
    ensures FenceMatch(s).None? <==> forall i: nat, j: nat :: FenceAt(s, i) && FenceAt(s, j) ==> j < i + 3
  {
    match FindFence(s, 0)
    case None =>
    case Some(open) =>
      var t := AfterTag(s, open);
      var body := SpaceEnd(s, t);
      if FindFence(s, body).None? {
        forall j: nat | open + 3 <= j < body ensures !FenceAt(s, j) {
          assert j < t ==> Upper(s[j]) in "SQL";
        }
      }
  }

  /** `match[1]` of server.js:55: the group, which gives the white space before the closing fence to `\s*`. */
  function Group(s: string): Option<string> {
    match FenceMatch(s)
    case None => None
    case Some(span) => Some(s[span.body..SpaceStart(s, span.body, span.close)])
  }

  /** server.js:54-60: the trimmed group when it is non-empty, else the whole content trimmed. */
  function Extract(content: string): (sql: string)
    ensures IsTrimmed(sql)
  {
    match Group(content)
    case Some(g) => if g != [] then Trim(g) else Trim(content)
    case None => Trim(content)
  }

  /** server.js:49-61: the SQL the handler answers with. */
  function GenerateSql(data: Completion): (sql: string)
    ensures IsTrimmed(sql)
  {
    match Content(data)
    case None => NoSql
    case Some(content) => Extract(content)
  }

  // ---------------------------------------------------------------------------
  // The guard

  /** Each missing link of `choices[0].message.content`, and empty content, give the fixed sentence. */
  lemma NoContentGivesSentinel(data: Completion)
    requires || data.choices.None?
             || data.choices == Some([])
             || (data.choices.Some? && |data.choices.value| > 0 && data.choices.value[0].message.None?)
             || (data.choices.Some? && |data.choices.value| > 0 && data.choices.value[0].message.Some?
                 && data.choices.value[0].message.value.content in {None, Some([])})
    ensures GenerateSql(data) == NoSql
  {
  }

  /** Non-empty content is always extracted, never replaced by the fixed sentence. */
  lemma ContentIsExtracted(choices: seq<Choice>, content: string)
    requires |choices| > 0 && choices[0].message == Some(Message(Some(content))) && content != []
    ensures GenerateSql(Completion(Some(choices))) == Extract(content)
  {
  }

  // ---------------------------------------------------------------------------
  // The match

  /** A slice of `s` holds no fence when no fence of `s` starts inside it. */
  lemma SliceFenceFree(s: string, lo: nat, hi: nat)
    requires lo <= hi <= |s|
    requires forall k: nat :: lo <= k < hi ==> !FenceAt(s, k)
    ensures forall k: nat :: !FenceAt(s[lo..hi], k)
  {
    forall k: nat | k + 3 <= hi - lo ensures !FenceAt(s[lo..hi], k) {
      assert !FenceAt(s, lo + k);
    }
  }

  /** A non-empty group is the answer: it is trimmed, it holds no fence, and it is the text
      between the opening fence (with tag and white space) and the closing fence (with white space). */
  lemma FencedAnswer(s: string, span: Span)
    requires FenceMatch(s) == Some(span)
    requires Group(s) != Some([])
    ensures var g := Group(s).value;
      && Extract(s) == g
      && span.body + |g| <= span.close && s[span.body..span.body + |g|] == g
      && (forall i :: span.body + |g| <= i < span.close ==> IsSpace(s[i]))
      && forall k: nat :: !FenceAt(g, k)
  {
    MatchIsFirst(s, span);
    var e := SpaceStart(s, span.body, span.close);
    var g := s[span.body..e];
    assert Group(s) == Some(g);
    assert Trim(g) == g by {
      assert g[0] == s[span.body] && g[|g| - 1] == s[e - 1];
      TrimUnique([], g, []);
      assert [] + g + [] == g;
    }
    SliceFenceFree(s, span.body, e);
  }

  /** The first fence at or after `from` is the one with no fence between `from` and it. */
  lemma FindFenceIs(s: string, from: nat, r: nat)
    requires from <= r && FenceAt(s, r)
    requires forall k: nat :: from <= k < r ==> !FenceAt(s, k)
    ensures FindFence(s, from) == Some(r)
  {
  }

  /** `\s*` after the tag stops inside the text before the closing fence, where it stops in that text alone. */
  lemma SpaceEndInSlice(s: string, t: nat, close: nat)
    requires t <= close <= |s| && (close < |s| ==> !IsSpace(s[close]))
    ensures SpaceEnd(s, t) == t + SpaceEnd(s[t..close], 0)
  {
    var inner := s[t..close];
    var a := SpaceEnd(inner, 0);
    assert forall i :: 0 <= i < |inner| ==> inner[i] == s[t + i];
    SpaceEndIs(s, t, t + a);
  }

  // The fenced case of the regular expression, stated by positions: `open` is the leftmost fence,
  // `AfterTag(s, open)` is where the group may start (past the optional tag), and `close` is the
  // first fence from there on.

  /** Where the match of a fenced block lies. */
  lemma FencedBlockSpan(s: string, open: nat, close: nat)
    requires FenceAt(s, open) && forall k: nat :: k < open ==> !FenceAt(s, k)
    requires AfterTag(s, open) <= close && FenceAt(s, close)
    requires forall k: nat :: AfterTag(s, open) <= k < close ==> !FenceAt(s, k)
    ensures var t := AfterTag(s, open);
      FenceMatch(s) == Some(Span(open, t + SpaceEnd(s[t..close], 0), close))
  {
    var t := AfterTag(s, open);
    FindFenceIs(s, 0, open);
    SpaceEndInSlice(s, t, close);
    FindFenceIs(s, t + SpaceEnd(s[t..close], 0), close);
  }

  /** The group of a match is its body slice up to the white space before the closing fence. */
  lemma GroupOf(s: string, span: Span, g: string)
    requires FenceMatch(s) == Some(span)
    requires s[span.body..SpaceStart(s, span.body, span.close)] == g
    ensures Group(s) == Some(g)
  {
  }

  /** The group of a fenced block is the text between the tag and the closing fence, trimmed. */
  lemma FencedBlockGroup(s: string, open: nat, close: nat)
    requires FenceAt(s, open) && forall k: nat :: k < open ==> !FenceAt(s, k)
    requires AfterTag(s, open) <= close && FenceAt(s, close)
    requires forall k: nat :: AfterTag(s, open) <= k < close ==> !FenceAt(s, k)
    ensures Group(s) == Some(Trim(s[AfterTag(s, open)..close]))
  {
    var t := AfterTag(s, open);
    var span := Span(open, t + SpaceEnd(s[t..close], 0), close);
    FencedBlockSpan(s, open, close);
    GroupOfInterior(s, span, t);
  }

  /** A match whose group starts past the white space at the start of `s[t..span.close]` has that text, trimmed, as its group. */
  lemma GroupOfInterior(s: string, span: Span, t: nat)
    requires t <= span.close <= |s|
    requires FenceMatch(s) == Some(span) && span.body == t + SpaceEnd(s[t..span.close], 0)
    ensures Group(s) == Some(Trim(s[t..span.close]))
  {
    InteriorIsTrim(s, t, span.body, span.close);
    GroupOf(s, span, Trim(s[t..span.close]));
  }

  /** Past the leading white space of `s[t..close]` and up to its trailing white space lies `s[t..close]` trimmed. */
  lemma InteriorIsTrim(s: string, t: nat, body: nat, close: nat)
    requires t <= close <= |s| && body == t + SpaceEnd(s[t..close], 0)
    ensures body <= close && s[body..SpaceStart(s, body, close)] == Trim(s[t..close])
  {
    var inner := s[t..close];
    assert forall i :: 0 <= i < |inner| ==> inner[i] == s[t + i];
    forall p | t <= p < body ensures IsSpace(s[p]) {
      assert s[p] == inner[p - t];
    }
    var e := SpaceStart(s, body, close);
    TrimBetween(s, t, body, e, close);
  }

  /** The fenced case: the answer is the text between the tag and the closing fence, trimmed, or the
      whole content trimmed when that text is only white space. */
  lemma FencedBlockAnswer(s: string, open: nat, close: nat)
    requires FenceAt(s, open) && forall k: nat :: k < open ==> !FenceAt(s, k)
    requires AfterTag(s, open) <= close && FenceAt(s, close)
    requires forall k: nat :: AfterTag(s, open) <= k < close ==> !FenceAt(s, k)
    ensures var inner := Trim(s[AfterTag(s, open)..close]);
      Extract(s) == if inner != [] then inner else Trim(s)
  {
    var inner := Trim(s[AfterTag(s, open)..close]);
    FencedBlockGroup(s, open, close);
    TrimIdempotent(s[AfterTag(s, open)..close]);
    AnswerOfGroup(s, inner);
  }

  /** The answer, given the group. */
  lemma AnswerOfGroup(s: string, g: string)
    requires Group(s) == Some(g)
    ensures Extract(s) == if g != [] then Trim(g) else Trim(s)
  {
  }

  /** Without two non-overlapping fences there is no match, and the answer is the whole content trimmed. */
  lemma UnfencedAnswer(s: string)
    requires forall i: nat, j: nat :: FenceAt(s, i) && FenceAt(s, j) ==> j < i + 3
    ensures Group(s).None? && Extract(s) == Trim(s)
  {
    MatchIffTwoFences(s);
  }

  /** Content without a backtick is answered with itself, trimmed. */
  lemma NoBacktickAnswer(s: string)
    requires '`' !in s
    ensures Extract(s) == Trim(s)
  {
    assert forall i: nat :: !FenceAt(s, i) by {
      forall i: nat | i < |s| ensures s[i] != '`' {
        assert s[i] in s;
      }
    }
    UnfencedAnswer(s);
  }
}
