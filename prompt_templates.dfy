/**
 * The prompt templates of EXPLAIN and DETECT_BUGS and the way a prompt is made
 * from them: `template.replace(/{language}/g, language).replace(/{code}/g, code)`.
 *
 * `String.prototype.replace` with a global regular expression and a string
 * replacement replaces every match, leftmost first and without overlap, and
 * expands `$`-patterns in the replacement (ECMAScript GetSubstitution). The
 * regular expressions here are plain literals without capture groups, so a
 * match is an occurrence of the literal text.
 */
module PromptTemplates {
  import opened Wrappers
  import opened JsStrings

  const Dollar: CodeUnit := 0x24
  const Ampersand: CodeUnit := 0x26
  const Apostrophe: CodeUnit := 0x27
  const Backtick: CodeUnit := 0x60
  const LeftBrace: CodeUnit := 0x7B
  const LineFeed: CodeUnit := 0x0A

  /** `{language}` */
  const LanguageSlot: JsString := [0x7B, 0x6C, 0x61, 0x6E, 0x67, 0x75, 0x61, 0x67, 0x65, 0x7D]
  /** `{code}` */
  const CodeSlot: JsString := [0x7B, 0x63, 0x6F, 0x64, 0x65, 0x7D]
  /** The line break and the closing code fence after the code slot. */
  const Fence: JsString := [0x0A, 0x60, 0x60, 0x60]

  /**
   * GetSubstitution for a match without capture groups: `$$` is a dollar,
   * `$&` the match, `` $` `` the text before it, `$'` the text after it; every
   * other unit, a lone `$` included, is copied.
   */
  function Substitution(replacement: JsString, str: JsString, position: nat, matchLength: nat): (r: JsString)
    requires position + matchLength <= |str|
    ensures Dollar !in replacement ==> r == replacement
    decreases |replacement|
  {
    if replacement == [] then []
    else if replacement[0] == Dollar && |replacement| >= 2 && replacement[1] == Dollar then
      [Dollar] + Substitution(replacement[2..], str, position, matchLength)
    else if replacement[0] == Dollar && |replacement| >= 2 && replacement[1] == Ampersand then
      str[position..position + matchLength] + Substitution(replacement[2..], str, position, matchLength)
    else if replacement[0] == Dollar && |replacement| >= 2 && replacement[1] == Backtick then
      str[..position] + Substitution(replacement[2..], str, position, matchLength)
    else if replacement[0] == Dollar && |replacement| >= 2 && replacement[1] == Apostrophe then
      str[position + matchLength..] + Substitution(replacement[2..], str, position, matchLength)
    else
      [replacement[0]] + Substitution(replacement[1..], str, position, matchLength)
  }

  /** The global replacement of `pattern` by `replacement` in `s`, from index `i` on. */
  function ReplaceFrom(s: JsString, pattern: JsString, replacement: JsString, i: nat): JsString
    requires |pattern| > 0 && i <= |s|
    decreases |s| - i
  {
    if |s| - i < |pattern| then s[i..]
    else if s[i..i + |pattern|] == pattern then
      Substitution(replacement, s, i, |pattern|) + ReplaceFrom(s, pattern, replacement, i + |pattern|)
    else
      [s[i]] + ReplaceFrom(s, pattern, replacement, i + 1)
  }

  /** `s.replace(/pattern/g, replacement)` */
  function ReplaceAll(s: JsString, pattern: JsString, replacement: JsString): JsString
    requires |pattern| > 0
  {
    ReplaceFrom(s, pattern, replacement, 0)
  }

  /**
   * Reference definition: every occurrence of `pattern`, leftmost first and
   * without overlap, gives way to the literal `replacement`.
   */
  function LiteralReplace(s: JsString, pattern: JsString, replacement: JsString): JsString
    requires |pattern| > 0
    decreases |s|
  {
    if |s| < |pattern| then s
    else if s[..|pattern|] == pattern then replacement + LiteralReplace(s[|pattern|..], pattern, replacement)
    else [s[0]] + LiteralReplace(s[1..], pattern, replacement)
  }

  /** One step of the reference replacement where an occurrence starts `t`. */
  lemma LiteralStepMatch(t: JsString, pattern: JsString, replacement: JsString)
    requires 0 < |pattern| <= |t| && t[..|pattern|] == pattern
    ensures LiteralReplace(t, pattern, replacement) == replacement + LiteralReplace(t[|pattern|..], pattern, replacement)
  {
  }

  /** One step of the reference replacement where no occurrence starts `t`. */
  lemma LiteralStepSkip(t: JsString, pattern: JsString, replacement: JsString)
    requires 0 < |pattern| <= |t| && t[..|pattern|] != pattern
    ensures LiteralReplace(t, pattern, replacement) == [t[0]] + LiteralReplace(t[1..], pattern, replacement)
  {
  }

  /** One step of the replacement at an occurrence, for a replacement without `$`. */
  lemma ReplaceStepMatch(s: JsString, pattern: JsString, replacement: JsString, i: nat)
    requires 0 < |pattern| && i + |pattern| <= |s| && s[i..i + |pattern|] == pattern
    requires Dollar !in replacement
    ensures ReplaceFrom(s, pattern, replacement, i) == replacement + ReplaceFrom(s, pattern, replacement, i + |pattern|)
  {
  }

  /** One step of the replacement where no occurrence starts at `i`. */
  lemma ReplaceStepSkip(s: JsString, pattern: JsString, replacement: JsString, i: nat)
    requires 0 < |pattern| && i + |pattern| <= |s| && s[i..i + |pattern|] != pattern
    ensures ReplaceFrom(s, pattern, replacement, i) == [s[i]] + ReplaceFrom(s, pattern, replacement, i + 1)
  {
  }

  /** The induction step of ReplaceFromLiteral at an occurrence. */
  lemma ReplaceLiteralAtMatch(s: JsString, pattern: JsString, replacement: JsString, i: nat,
                              rest: JsString)
    requires 0 < |pattern| && i + |pattern| <= |s| && s[i..i + |pattern|] == pattern
    requires Dollar !in replacement
    requires ReplaceFrom(s, pattern, replacement, i + |pattern|) == rest
    requires LiteralReplace(s[i + |pattern|..], pattern, replacement) == rest
    ensures ReplaceFrom(s, pattern, replacement, i) == LiteralReplace(s[i..], pattern, replacement)
  {
    var t := s[i..];
    assert t[..|pattern|] == s[i..i + |pattern|] && t[|pattern|..] == s[i + |pattern|..];
    LiteralStepMatch(t, pattern, replacement);
    ReplaceStepMatch(s, pattern, replacement, i);
  }

  /** The induction step of ReplaceFromLiteral where no occurrence starts. */
  lemma ReplaceLiteralAtSkip(s: JsString, pattern: JsString, replacement: JsString, i: nat,
                             rest: JsString)
    requires 0 < |pattern| && i + |pattern| <= |s| && s[i..i + |pattern|] != pattern
    requires ReplaceFrom(s, pattern, replacement, i + 1) == rest
    requires LiteralReplace(s[i + 1..], pattern, replacement) == rest
    ensures ReplaceFrom(s, pattern, replacement, i) == LiteralReplace(s[i..], pattern, replacement)
  {
    var t := s[i..];
    assert t[..|pattern|] == s[i..i + |pattern|] && t[1..] == s[i + 1..];
    LiteralStepSkip(t, pattern, replacement);
    ReplaceStepSkip(s, pattern, replacement, i);
  }

  /** Both replacements keep a tail too short to hold an occurrence. */
  lemma ReplaceLiteralShort(s: JsString, pattern: JsString, replacement: JsString, i: nat)
    requires i <= |s| && 0 < |pattern| && |s| - i < |pattern|
    ensures ReplaceFrom(s, pattern, replacement, i) == LiteralReplace(s[i..], pattern, replacement)
  {
  }

  /** Without a `$` the replacement is inserted as it is. */
  lemma {:induction false} ReplaceFromLiteral(s: JsString, pattern: JsString, replacement: JsString, i: nat)
    requires |pattern| > 0 && i <= |s|
    requires Dollar !in replacement
    ensures ReplaceFrom(s, pattern, replacement, i) == LiteralReplace(s[i..], pattern, replacement)
    decreases |s| - i, 1
  {
    if |s| - i < |pattern| {
      ReplaceLiteralShort(s, pattern, replacement, i);
    } else {
      ReplaceFromLiteralLong(s, pattern, replacement, i);
    }
  }

  /** ReplaceFromLiteral where the tail is long enough to hold an occurrence. */
  lemma {:induction false} ReplaceFromLiteralLong(s: JsString, pattern: JsString, replacement: JsString, i: nat)
    requires 0 < |pattern| && i + |pattern| <= |s|
    requires Dollar !in replacement
    ensures ReplaceFrom(s, pattern, replacement, i) == LiteralReplace(s[i..], pattern, replacement)
    decreases |s| - i, 0
  {
    if s[i..i + |pattern|] == pattern {
      ReplaceFromLiteralMatch(s, pattern, replacement, i);
    } else {
      ReplaceFromLiteralSkip(s, pattern, replacement, i);
    }
  }

  /** ReplaceFromLiteral where an occurrence starts at `i`. */
  lemma {:induction false} ReplaceFromLiteralMatch(s: JsString, pattern: JsString, replacement: JsString, i: nat)
    requires 0 < |pattern| && i + |pattern| <= |s| && s[i..i + |pattern|] == pattern
    requires Dollar !in replacement
    ensures ReplaceFrom(s, pattern, replacement, i) == LiteralReplace(s[i..], pattern, replacement)
    decreases |s| - i, 0, 0
  {
    ReplaceFromLiteral(s, pattern, replacement, i + |pattern|);
    ReplaceLiteralAtMatch(s, pattern, replacement, i, ReplaceFrom(s, pattern, replacement, i + |pattern|));
  }

  /** ReplaceFromLiteral where no occurrence starts at `i`. */
  lemma {:induction false} ReplaceFromLiteralSkip(s: JsString, pattern: JsString, replacement: JsString, i: nat)
    requires 0 < |pattern| && i + |pattern| <= |s| && s[i..i + |pattern|] != pattern
    requires Dollar !in replacement
    ensures ReplaceFrom(s, pattern, replacement, i) == LiteralReplace(s[i..], pattern, replacement)
    decreases |s| - i, 0, 0
  {
    ReplaceFromLiteral(s, pattern, replacement, i + 1);
    ReplaceLiteralAtSkip(s, pattern, replacement, i, ReplaceFrom(s, pattern, replacement, i + 1));
  }

  lemma ReplaceAllLiteral(s: JsString, pattern: JsString, replacement: JsString)
    requires |pattern| > 0 && Dollar !in replacement
    ensures ReplaceAll(s, pattern, replacement) == LiteralReplace(s, pattern, replacement)
  {
    ReplaceFromLiteral(s, pattern, replacement, 0);
    assert s[0..] == s;
  }

  /** A prefix that cannot start an occurrence is kept as it is. */
  lemma {:induction false} LiteralSkip(a: JsString, b: JsString, pattern: JsString, replacement: JsString)
    requires |pattern| > 0 && pattern[0] !in a
    ensures LiteralReplace(a + b, pattern, replacement) == a + LiteralReplace(b, pattern, replacement)
    decreases |a|
  {
    if a != [] {
      var s := a + b;
      assert s[0] == a[0];
      if |s| >= |pattern| {
        assert s[..|pattern|][0] != pattern[0];
      }
      assert s[1..] == a[1..] + b;
      LiteralSkip(a[1..], b, pattern, replacement);
    } else {
      assert a + b == b;
    }
  }

  /** An occurrence at the front is replaced. */
  lemma LiteralMatch(b: JsString, pattern: JsString, replacement: JsString)
    requires |pattern| > 0
    ensures LiteralReplace(pattern + b, pattern, replacement) == replacement + LiteralReplace(b, pattern, replacement)
  {
    var s := pattern + b;
    assert s[..|pattern|] == pattern;
    assert s[|pattern|..] == b;
  }

  /** `$&` stands for the match itself, so replacing by it changes nothing. */
  lemma {:induction false} MatchReplacementIsIdentity(s: JsString, pattern: JsString, i: nat)
    requires |pattern| > 0 && i <= |s|
    ensures ReplaceFrom(s, pattern, [Dollar, Ampersand], i) == s[i..]
    decreases |s| - i
  {
    var r := [Dollar, Ampersand];
    if |s| - i < |pattern| {
    } else if s[i..i + |pattern|] == pattern {
      assert r[2..] == [];
      assert Substitution(r, s, i, |pattern|) == s[i..i + |pattern|];
      MatchReplacementIsIdentity(s, pattern, i + |pattern|);
      assert s[i..] == s[i..i + |pattern|] + s[i + |pattern|..];
    } else {
      MatchReplacementIsIdentity(s, pattern, i + 1);
      assert s[i..] == [s[i]] + s[i + 1..];
    }
  }

  /**
   * A prompt template: fixed text around the slots, laid out as in both
   * PROMPTS entries: intro, `{language}`, rubric, `{language}`, a line break,
   * `{code}` and the closing fence.
   */
  datatype Template = Template(intro: JsString, rubric: JsString)
  {
    /** The template's text with `language` in both language slots and `code` in the code slot. */
    function Fill(language: JsString, code: JsString): (r: JsString)
      ensures |r| == |intro| + 2 * |language| + |rubric| + |code| + 5
    {
      intro + (language + (rubric + (language + ([LineFeed] + (code + Fence)))))
    }

    /** The template as written, its slots unfilled. */
    function Text(): JsString
    {
      Fill(LanguageSlot, CodeSlot)
    }
  }

  /** Fixed text that can neither begin a slot nor hold a `$`-pattern. */
  predicate Plain(t: JsString)
  {
    LeftBrace !in t && Dollar !in t
  }

  const Explain: Template := Template(
    FromString("You are an expert programmer and a friendly teacher. Your goal is to provide the best possible explanation for the following "),
    FromString(" code snippet. Structure your response in four parts using Markdown: ### High-Level Summary, ### Line-by-Line Breakdown, ### Key Concepts, and ### Conclusion. In the conclusion, provide a brief summary of the code's purpose and what it accomplishes. Be clear, concise, and friendly. Here is the code:\n```"))

  const DetectBugs: Template := Template(
    FromString("You are a world-class software engineer specializing in code quality and security. Your task is to conduct a thorough code review of the following "),
    FromString(" code snippet. Analyze it for bugs, performance issues, security vulnerabilities, and style violations. Structure your response in four parts using Markdown: ### Bug Report, ### Potential Issues & Best Practices, ### Style Suggestions, and ### Overall Assessment. For the Bug Report, list any critical errors that would cause crashes or incorrect behavior, including code examples for the fix. For Potential Issues, discuss things that aren't bugs but could be improved for robustness or performance. For Style Suggestions, recommend changes for better readability and consistency. In the Overall Assessment, give a summary of the code's quality. If no issues are found in a category, state \"No issues found.\" Be meticulous and provide clear, actionable feedback. Here is the code:\n```"))

  /** The language named in a one-shot prompt: the detected one, or `code`. */
  function PromptLanguage(detected: Option<JsString>): (r: JsString)
    ensures detected.Some? && detected.value != [] ==> r == detected.value
    ensures (detected.None? || detected.value == []) ==> r == FromString("code")
  {
    Or(detected, FromString("code"))
  }

  /** `promptTemplate.replace(/{language}/g, language).replace(/{code}/g, code)` */
  function Prompt(template: JsString, language: JsString, code: JsString): JsString
  {
    ReplaceAll(ReplaceAll(template, LanguageSlot, language), CodeSlot, code)
  }

  /** The first pass fills both language slots and leaves the code slot. */
  lemma LanguagePass(t: Template, language: JsString)
    requires Plain(t.intro) && Plain(t.rubric) && Dollar !in language
    ensures ReplaceAll(t.Text(), LanguageSlot, language) == t.Fill(language, CodeSlot)
  {
    var L := LanguageSlot;
    var rest := [LineFeed] + (CodeSlot + Fence);
    var tail1 := L + rest;
    var tail2 := t.rubric + tail1;
    var tail3 := L + tail2;
    assert t.Text() == t.intro + tail3;
    ReplaceAllLiteral(t.Text(), L, language);
    LiteralSkip(t.intro, tail3, L, language);
    LiteralMatch(tail2, L, language);
    LiteralSkip(t.rubric, tail1, L, language);
    LiteralMatch(rest, L, language);
    LeftoverUntouched(language);
  }

  /** What follows the second language slot holds no `{language}`. */
  lemma LeftoverUntouched(language: JsString)
    ensures LiteralReplace([LineFeed] + (CodeSlot + Fence), LanguageSlot, language) == [LineFeed] + (CodeSlot + Fence)
  {
    var L := LanguageSlot;
    var u := CodeSlot + Fence;
    LiteralSkip([LineFeed], u, L, language);
    assert |u| == |L| && u[..|L|] == u && u[1] != L[1];
    assert LiteralReplace(u[1..], L, language) == u[1..];
    assert [u[0]] + u[1..] == u;
  }

  /** The fixed text before the code slot, once both language slots are filled. */
  function Head(t: Template, language: JsString): JsString
  {
    t.intro + language + t.rubric + language + [LineFeed]
  }

  /** A filled template is the head, the code and the fence. */
  lemma FillLayout(t: Template, language: JsString, code: JsString)
    ensures t.Fill(language, code) == Head(t, language) + code + Fence
    ensures OccursAt(t.Fill(language, code), code, |Head(t, language)|)
  {
    var p := Head(t, language) + code + Fence;
    assert t.Fill(language, code) == p;
    assert p[|Head(t, language)|..|Head(t, language)| + |code|] == code;
  }

  /** The code pass on a template whose language slots are filled with text free of `{`. */
  lemma CodePass(t: Template, language: JsString, code: JsString)
    requires LeftBrace !in t.intro && LeftBrace !in t.rubric && LeftBrace !in language
    ensures LiteralReplace(t.Fill(language, CodeSlot), CodeSlot, code) == t.Fill(language, code)
  {
    var K := CodeSlot;
    var x4 := [LineFeed] + (K + Fence);
    var x3 := language + x4;
    var x2 := t.rubric + x3;
    var x1 := language + x2;
    LiteralSkip(t.intro, x1, K, code);
    LiteralSkip(language, x2, K, code);
    LiteralSkip(t.rubric, x3, K, code);
    LiteralSkip(language, x4, K, code);
    LiteralSkip([LineFeed], K + Fence, K, code);
    LiteralMatch(Fence, K, code);
    assert LiteralReplace(Fence, K, code) == Fence by {
      LiteralSkip(Fence, [], K, code);
      assert Fence + [] == Fence;
    }
  }

  /**
   * With fixed text and a language free of `{` and `$`, and code free of `$`,
   * the prompt is the template with the detected language in both language
   * slots and the code, verbatim, in the code slot.
   */
  lemma PromptShape(t: Template, language: JsString, code: JsString)
    requires Plain(t.intro) && Plain(t.rubric) && Plain(language) && Dollar !in code
    ensures Prompt(t.Text(), language, code) == t.Fill(language, code)
    ensures Contains(Prompt(t.Text(), language, code), code)
  {
    LanguagePass(t, language);
    ReplaceAllLiteral(t.Fill(language, CodeSlot), CodeSlot, code);
    CodePass(t, language, code);
    FillLayout(t, language, code);
  }

  /** `x + c + y` holds no `pattern` when `c` holds none and none can straddle a boundary. */
  lemma NoOccurrenceAround(x: JsString, c: JsString, y: JsString, pattern: JsString)
    requires |pattern| > 0 && |y| > 0
    requires pattern[0] !in x && pattern[0] !in y && y[0] !in pattern
    requires !Contains(c, pattern)
    ensures !Contains(x + c + y, pattern)
  {
    var s := x + c + y;
    forall i: nat | i <= |s|
      ensures !OccursAt(s, pattern, i)
    {
      if i + |pattern| <= |s| {
        var w := s[i..i + |pattern|];
        if i < |x| {
          assert w[0] == x[i];
        } else if i >= |x| + |c| {
          assert w[0] == y[i - |x| - |c|];
        } else if i + |pattern| <= |x| + |c| {
          assert w == c[i - |x|..i - |x| + |pattern|];
          assert !OccursAt(c, pattern, i - |x|);
        } else {
          var k := |x| + |c| - i;
          assert w[k] == y[0];
        }
      }
    }
  }

  /**
   * Under the conditions of `PromptShape`, code that holds no slot text
   * leaves no `{language}` or `{code}` in the prompt.
   */
  lemma PromptHasNoPlaceholder(t: Template, language: JsString, code: JsString)
    requires Plain(t.intro) && Plain(t.rubric) && Plain(language) && Dollar !in code
    requires !Contains(code, LanguageSlot) && !Contains(code, CodeSlot)
    ensures !Contains(Prompt(t.Text(), language, code), LanguageSlot)
    ensures !Contains(Prompt(t.Text(), language, code), CodeSlot)
  {
    PromptShape(t, language, code);
    FillLayout(t, language, code);
    var head := Head(t, language);
    assert LeftBrace !in head;
    NoOccurrenceAround(head, code, Fence, LanguageSlot);
    NoOccurrenceAround(head, code, Fence, CodeSlot);
  }

  /**
   * Code `$&` is not inserted: the replacement pattern stands for the matched
   * `{code}`, which is put back, so the prompt still holds the code slot and
   * never the code.
   */
  lemma DollarAmpersandKeepsCodeSlot(t: Template, language: JsString)
    requires Plain(t.intro) && Plain(t.rubric) && Dollar !in language
    ensures Prompt(t.Text(), language, [Dollar, Ampersand]) == t.Fill(language, CodeSlot)
    ensures Contains(Prompt(t.Text(), language, [Dollar, Ampersand]), CodeSlot)
  {
    LanguagePass(t, language);
    var s := ReplaceAll(t.Text(), LanguageSlot, language);
    MatchReplacementIsIdentity(s, CodeSlot, 0);
    assert s[0..] == s;
    FillLayout(t, language, CodeSlot);
  }

  /**
   * A detected language equal to `{code}` is filled in before the code pass,
   * so the code lands in all three slots.
   */
  lemma CodeSlotLanguageRepeatsCode(t: Template, code: JsString)
    requires Plain(t.intro) && Plain(t.rubric) && Dollar !in code
    ensures Prompt(t.Text(), CodeSlot, code) == t.Fill(code, code)
  {
    var K := CodeSlot;
    LanguagePass(t, K);
    ReplaceAllLiteral(t.Fill(K, K), K, code);
    var x4 := [LineFeed] + (K + Fence);
    var x3 := K + x4;
    var x2 := t.rubric + x3;
    var x1 := K + x2;
    LiteralSkip(t.intro, x1, K, code);
    LiteralMatch(x2, K, code);
    LiteralSkip(t.rubric, x3, K, code);
    LiteralMatch(x4, K, code);
    LiteralSkip([LineFeed], K + Fence, K, code);
    LiteralMatch(Fence, K, code);
    assert LiteralReplace(Fence, K, code) == Fence by {
      LiteralSkip(Fence, [], K, code);
      assert Fence + [] == Fence;
    }
  }
}
