/** Searching a string and searching its stripped form: for a needle that
    neither starts nor ends with whitespace, stripping the haystack loses no
    occurrence. */
module StrippedSearch {
  import opened Whitespace
  import opened Substrings

  /** An occurrence inside the slice `s[lo..hi]` is an occurrence in `s`
      lying within `lo..hi`, shifted by `lo`. */
  lemma OccursInSlice(s: string, sub: string, lo: nat, hi: nat, j: int)
    requires lo <= hi <= |s|
    ensures OccursAt(s[lo..hi], sub, j) <==> 0 <= j && lo + j + |sub| <= hi && OccursAt(s, sub, lo + j)
  {
    if 0 <= j && lo + j + |sub| <= hi {
      SliceOfSlice(s, lo, hi, j, j + |sub|);
    }
  }

  /** An occurrence in `s` lying within `lo..hi` is an occurrence in the slice
      `s[lo..hi]`, shifted back by `lo`. */
  lemma OccursIntoSlice(s: string, sub: string, lo: nat, hi: nat, j: int)
    requires lo <= j && j + |sub| <= hi <= |s| && OccursAt(s, sub, j)
    ensures OccursAt(s[lo..hi], sub, j - lo)
  {
    OccursInSlice(s, sub, lo, hi, j - lo);
  }

  /** `strip()` returns a contiguous piece of its argument. */
  lemma StripIsContained(s: string)
    ensures Contains(s, Strip(s))
  {
    assert OccursAt(s, Strip(s), LeadingWhitespace(s));
  }

  /** A needle without whitespace at its ends cannot occur in `s` where it
      would touch whitespace-only padding at either end. */
  lemma OccursBetweenPadding(s: string, sub: string, lo: nat, hi: nat, j: int)
    requires lo <= hi <= |s| && |sub| > 0 && IsStripped(sub)
    requires AllWhitespace(s[..lo]) && AllWhitespace(s[hi..])
    requires OccursAt(s, sub, j)
    ensures lo <= j && j + |sub| <= hi
  {
    var last := j + |sub| - 1;
    assert s[j] == s[j..j + |sub|][0] == sub[0];
    assert s[last] == s[j..j + |sub|][|sub| - 1] == sub[|sub| - 1];
  }

  /** An occurrence in `Strip(s)` is an occurrence in `s`, shifted by the
      leading whitespace. */
  lemma OccursFromStripped(s: string, sub: string, k: int)
    requires OccursAt(Strip(s), sub, k)
    ensures OccursAt(s, sub, LeadingWhitespace(s) + k)
  {
    var i := LeadingWhitespace(s);
    var e := i + |Strip(s)|;
    assert Strip(s) == s[i..e];
    OccursInSlice(s, sub, i, e, k);
  }

  /** An occurrence in `s` of a non-empty needle without whitespace at its
      ends is an occurrence in `Strip(s)`, shifted back. */
  lemma OccursToStripped(s: string, sub: string, j: int)
    requires |sub| > 0 && IsStripped(sub) && OccursAt(s, sub, j)
    ensures j >= LeadingWhitespace(s) && OccursAt(Strip(s), sub, j - LeadingWhitespace(s))
  {
    var i := LeadingWhitespace(s);
    var e := i + |Strip(s)|;
    var r := Strip(s);
    assert r == s[i..e];
    OccursBetweenPadding(s, sub, i, e, j);
    OccursIntoSlice(s, sub, i, e, j);
    assert OccursAt(r, sub, j - i);
  }

  /** Containment of such a needle survives stripping, in both directions. */
  lemma ContainsInStripped(s: string, sub: string)
    requires |sub| > 0 && IsStripped(sub)
    ensures Contains(s, sub) <==> Contains(Strip(s), sub)
  {
    if Contains(s, sub) {
      var j :| 0 <= j <= |s| && OccursAt(s, sub, j);
      OccursToStripped(s, sub, j);
    }
    if Contains(Strip(s), sub) {
      var k :| 0 <= k <= |Strip(s)| && OccursAt(Strip(s), sub, k);
      OccursFromStripped(s, sub, k);
    }
  }

  /** Without such a needle in `Strip(s)` there is none in `s`. */
  lemma NoLastIndexStripped(s: string, sub: string)
    requires |sub| > 0 && IsStripped(sub)
    requires LastIndexOf(Strip(s), sub).None?
    ensures LastIndexOf(s, sub).None?
  {
    forall j | OccursAt(s, sub, j) ensures false {
      OccursToStripped(s, sub, j);
    }
  }

  /** The last occurrence of such a needle in `Strip(s)` is its last
      occurrence in `s`, shifted by the leading whitespace. */
  lemma LastIndexStripped(s: string, sub: string, k: nat)
    requires |sub| > 0 && IsStripped(sub)
    requires LastIndexOf(Strip(s), sub) == Some(k)
    ensures LastIndexOf(s, sub) == Some(LeadingWhitespace(s) + k)
  {
    var i := LeadingWhitespace(s);
    OccursFromStripped(s, sub, k);
    forall j | i + k < j ensures !OccursAt(s, sub, j) {
      if OccursAt(s, sub, j) {
        OccursToStripped(s, sub, j);
      }
    }
    LastIndexOfUnique(s, sub, i + k);
  }

  lemma TailOfSlice(s: string, i: nat, e: nat, p: nat)
    requires i + p <= e <= |s|
    ensures s[i + p..] == s[i..e][p..] + s[e..]
  {
    SliceOfSlice(s, i, e, p, e - i);
    assert s[i + p..] == s[i + p..e] + s[e..];
  }

  /** The text after an occurrence of `sub` at `k` in `Strip(s)`, which is at
      `j` in `s`, strips to the same string as the text after it in `s`. */
  lemma StripOfTail(s: string, sub: string, k: nat, j: nat)
    requires k + |sub| <= |Strip(s)| && j == LeadingWhitespace(s) + k
    ensures j + |sub| <= |s|
    ensures Strip(s[j + |sub|..]) == Strip(Strip(s)[k + |sub|..])
  {
    var e := LeadingWhitespace(s) + |Strip(s)|;
    TailOfSlice(s, LeadingWhitespace(s), e, k + |sub|);
    assert s[LeadingWhitespace(s) + (k + |sub|)..] == s[j + |sub|..];
    StripIgnoresTrailing(s[j + |sub|..], Strip(s)[k + |sub|..], s[e..]);
  }
}

/** The reply handling of `ai/ghostty_ai.py`: the command path
    (`get_command_from_ollama`), the correction path (`get_command_correction`)
    and the command-line entry point. The chat call to the model service is
    not modelled; its outcome is the `ChatResult` each path receives. */
module GhosttyAi {
  import opened Whitespace
  import opened Substrings
  import opened StrippedSearch

  /** What a chat call to the model service produced: the reply's message
      content, or the text of the exception it raised. */
  datatype ChatResult = Ok(content: string) | Fault(msg: string)

  /** One run of the script with arguments: the prompt sent to the model and
      the line printed. */
  datatype Invocation = Invocation(prompt: string, printed: string)

  /** The marker closing a reasoning model's think block. */
  const ThinkClose: string := "</think>"

  const CommandErrorPrefix: string := "Error communicating with Ollama: "
  const CorrectionErrorPrefix: string := "Error: "

  /** Two occurrences of the marker never overlap. */
  lemma ThinkCloseBorderFree()
    ensures BorderFree(ThinkClose)
  {
    forall d | 0 < d < |ThinkClose| ensures ThinkClose[d..] != ThinkClose[..|ThinkClose| - d] {
      assert ThinkClose[..|ThinkClose| - d][0] == '<';
      assert ThinkClose[d..][0] == ThinkClose[d] != '<';
    }
  }

  lemma ThinkCloseStripped()
    ensures |ThinkClose| > 0 && IsStripped(ThinkClose)
  {
  }

  /** The think-block removal applied to an already stripped reply: when it
      contains the marker, keep only the stripped text after the marker's last
      occurrence. */
  function DropThinking(full: string): (r: string)
    ensures !Contains(r, ThinkClose)
    ensures Contains(full, r)
    ensures IsStripped(full) ==> IsStripped(r)
  {
    if Contains(full, ThinkClose) then
      var after := LastPiece(full, ThinkClose);
      var r := Strip(after);
      StripIsContained(after);
      assert OccursAt(full, after, |full| - |after|);
      ContainsTransitive(full, after, r);
      PieceAvoids(after, r, ThinkClose);
      r
    else
      assert OccursAt(full, full, 0);
      full
  }

  /** The post-processing of a reply on the command path: strip it, then drop
      everything up to the last marker. The result has no marker, no
      surrounding whitespace, and is a contiguous piece of the reply. */
  function ExtractCommand(content: string): (r: string)
    ensures !Contains(r, ThinkClose)
    ensures IsStripped(r)
    ensures Contains(content, r)
  {
    var full := Strip(content);
    StripIsContained(content);
    var r := DropThinking(full);
    ContainsTransitive(content, full, r);
    r
  }

  /** The command path: a reply is post-processed, a fault becomes an error
      text instead of an exception. */
  function CommandFromReply(reply: ChatResult): (r: string)
    ensures reply.Ok? ==> !Contains(r, ThinkClose) && IsStripped(r) && Contains(reply.content, r)
    ensures reply.Fault? ==> r == CommandErrorPrefix + reply.msg
  {
    match reply
    case Ok(content) => ExtractCommand(content)
    case Fault(msg) => CommandErrorPrefix + msg
  }

  /** The correction path: a reply is only stripped, think blocks and all; a
      fault becomes an error text with a shorter prefix. */
  function CorrectionFromReply(reply: ChatResult): (r: string)
    ensures reply.Ok? ==> IsStripped(r) && Contains(reply.content, r)
    ensures reply.Ok? ==> var i := LeadingWhitespace(reply.content);
                          && i + |r| <= |reply.content|
                          && r == reply.content[i..i + |r|]
                          && AllWhitespace(reply.content[i + |r|..])
    ensures reply.Ok? ==> (Contains(r, ThinkClose) <==> Contains(reply.content, ThinkClose))
    ensures reply.Fault? ==> r == CorrectionErrorPrefix + reply.msg
  {
    match reply
    case Ok(content) =>
      StripIsContained(content);
      ThinkCloseStripped();
      ContainsInStripped(content, ThinkClose);
      Strip(content)
    case Fault(msg) => CorrectionErrorPrefix + msg
  }

  /** Without a marker, think-block removal changes nothing. */
  lemma DropThinkingWithoutMarker(full: string)
    requires LastIndexOf(full, ThinkClose).None?
    ensures DropThinking(full) == full
  {
    ContainsIffLastIndexOf(full, ThinkClose);
  }

  /** With a marker, think-block removal keeps the stripped text after its
      last occurrence. */
  lemma DropThinkingAfterLastMarker(full: string, k: nat)
    requires LastIndexOf(full, ThinkClose) == Some(k)
    ensures k + |ThinkClose| <= |full|
    ensures DropThinking(full) == Strip(full[k + |ThinkClose|..])
  {
    ContainsIffLastIndexOf(full, ThinkClose);
    ThinkCloseBorderFree();
    LastPieceFollowsLastOccurrence(full, ThinkClose);
    var after := LastPiece(full, ThinkClose);
    assert after == full[k + |ThinkClose|..];
    assert DropThinking(full) == Strip(after);
  }

  /** The command path splits at the LAST marker of the stripped reply and
      keeps the stripped text after it; a reply without a marker comes back
      stripped and otherwise unchanged. */
  lemma ExtractCommandSplitsAtLastMarker(content: string)
    ensures var full := Strip(content);
            match LastIndexOf(full, ThinkClose)
            case None => ExtractCommand(content) == full
            case Some(k) => ExtractCommand(content) == Strip(full[k + |ThinkClose|..])
  {
    match LastIndexOf(Strip(content), ThinkClose)
    case None => DropThinkingWithoutMarker(Strip(content));
    case Some(k) => DropThinkingAfterLastMarker(Strip(content), k);
  }

  /** A raw reply without a marker comes back stripped. */
  lemma RawReplyWithoutMarker(content: string)
    requires LastIndexOf(content, ThinkClose).None?
    ensures ExtractCommand(content) == Strip(content)
  {
    ThinkCloseStripped();
    ContainsIffLastIndexOf(content, ThinkClose);
    ContainsInStripped(content, ThinkClose);
    ContainsIffLastIndexOf(Strip(content), ThinkClose);
    DropThinkingWithoutMarker(Strip(content));
  }

  /** With its last marker at `j`, a raw reply gives the stripped text after
      that marker: the last marker of the reply itself decides, and stripping
      first changes nothing. */
  lemma RawReplyWithMarker(content: string, j: nat)
    requires LastIndexOf(content, ThinkClose) == Some(j)
    ensures j + |ThinkClose| <= |content|
    ensures ExtractCommand(content) == Strip(content[j + |ThinkClose|..])
  {
    ThinkCloseStripped();
    match LastIndexOf(Strip(content), ThinkClose)
    case None =>
      NoLastIndexStripped(content, ThinkClose);
    case Some(k) =>
      LastIndexStripped(content, ThinkClose, k);
      DropThinkingAfterLastMarker(Strip(content), k);
      StripOfTail(content, ThinkClose, k, j);
  }

  /** Whatever precedes a marker, earlier markers included, never matters:
      with no marker after it, the result is the stripped text after it. */
  lemma EarlierMarkersIgnored(x: string, y: string)
    requires !Contains(y, ThinkClose)
    ensures ExtractCommand(x + ThinkClose + y) == Strip(y)
  {
    var c := x + ThinkClose + y;
    var n := |x| + |ThinkClose|;
    assert c[|x|..n] == ThinkClose;
    assert c[n..] == y;
    ContainsIffLastIndexOf(y, ThinkClose);
    ThinkCloseBorderFree();
    LastIndexOfIsThis(c, ThinkClose, |x|);
    RawReplyWithMarker(c, |x|);
    assert c[|x| + |ThinkClose|..] == y;
  }

  /** There is no non-empty guarantee: a reply ending in the marker, with at
      most whitespace after it, yields the empty string. */
  lemma MarkerAtEndGivesEmpty(x: string, w: string)
    requires AllWhitespace(w)
    ensures ExtractCommand(x + ThinkClose + w) == ""
  {
    forall j | 0 <= j <= |w| ensures !OccursAt(w, ThinkClose, j) {
      if j + |ThinkClose| <= |w| {
        assert w[j..j + |ThinkClose|][0] == w[j];
      }
    }
    EarlierMarkersIgnored(x, w);
    assert w + "" + "" == w;
    StripOfPadded(w, "", "");
  }

  /** Whitespace around the reply never matters: it is stripped before
      anything else happens. */
  lemma ExtractCommandIgnoresPadding(a: string, content: string, b: string)
    requires AllWhitespace(a) && AllWhitespace(b)
    ensures ExtractCommand(a + content + b) == ExtractCommand(content)
  {
    StripIgnoresPadding(a, content, b);
  }

  /** A stripped text without a marker passes the command path unchanged. */
  lemma ExtractCommandKeepsCleanText(s: string)
    requires IsStripped(s) && !Contains(s, ThinkClose)
    ensures ExtractCommand(s) == s
  {
    StripKeepsStripped(s);
  }

  /** Post-processing is idempotent. */
  lemma ExtractCommandIdempotent(content: string)
    ensures ExtractCommand(ExtractCommand(content)) == ExtractCommand(content)
  {
    ExtractCommandKeepsCleanText(ExtractCommand(content));
  }

  /** The correction path returns exactly the stripped reply: whatever
      whitespace pads a stripped text, the correction is that text. */
  lemma CorrectionOfPadded(a: string, m: string, b: string)
    requires AllWhitespace(a) && AllWhitespace(b) && IsStripped(m)
    ensures CorrectionFromReply(Ok(a + m + b)) == m
  {
    StripOfPadded(a, m, b);
  }

  /** On a reply, the command path is the correction path followed by the
      removal of think blocks. */
  lemma CommandIsCorrectionWithoutThinking(content: string)
    ensures CommandFromReply(Ok(content)) == ExtractCommand(CorrectionFromReply(Ok(content)))
  {
    StripIdempotent(content);
  }

  /** The error text is not marked in any way the caller could tell apart: a
      reply that reads like an error text yields the same output as a fault. */
  lemma ErrorTextIsAmbiguous(msg: string)
    requires IsStripped(CommandErrorPrefix + msg) && !Contains(CommandErrorPrefix + msg, ThinkClose)
    ensures CommandFromReply(Ok(CommandErrorPrefix + msg)) == CommandFromReply(Fault(msg))
  {
    ExtractCommandKeepsCleanText(CommandErrorPrefix + msg);
  }

  /** The entry point: with at least one argument after the program name,
      the arguments joined by single spaces are the prompt and the command
      path's output is what is printed; otherwise nothing is asked or printed. */
  function Run(argv: seq<string>, chat: string -> ChatResult): (r: Option<Invocation>)
    ensures r.None? <==> |argv| <= 1
    ensures r.Some? ==> r.value.prompt == Join(argv[1..], " ")
    ensures r.Some? ==> forall k :: 1 <= k < |argv| ==> Contains(r.value.prompt, argv[k])
    ensures r.Some? ==> r.value.printed == CommandFromReply(chat(r.value.prompt))
  {
    if |argv| > 1 then
      var prompt := Join(argv[1..], " ");
      assert forall k :: 1 <= k < |argv| ==> argv[k] == argv[1..][k - 1];
      Some(Invocation(prompt, CommandFromReply(chat(prompt))))
    else
      None
  }

  /** When no argument contains a space, the prompt splits back into exactly
      the arguments: the join loses nothing. */
  lemma PromptRoundTrip(argv: seq<string>, chat: string -> ChatResult)
    requires |argv| > 1
    requires forall k :: 1 <= k < |argv| ==> !Contains(argv[k], " ")
    ensures Run(argv, chat).Some? && Split(Run(argv, chat).value.prompt, " ") == argv[1..]
  {
    assert forall k :: 0 <= k < |argv[1..]| ==> argv[1..][k] == argv[k + 1];
    SplitJoin(argv[1..], " ");
  }

  /** The arguments are joined in order with one space between neighbours,
      spaces inside an argument included: two quoted arguments `a` and `b`
      make the prompt `a + " " + b`. */
  lemma PromptOfTwoArguments(program: string, x: string, y: string, chat: string -> ChatResult)
    ensures Run([program, x, y], chat).Some?
    ensures Run([program, x, y], chat).value.prompt == x + " " + y
  {
    assert [program, x, y][1..] == [x] + [y];
    JoinCons(x, [y], " ");
    JoinOne(y, " ");
  }
}
