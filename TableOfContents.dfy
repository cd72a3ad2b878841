/**
  The table of contents of `components/TableOfContents.tsx`: the scan of a
  post's markdown for `#`, `##` and `###` headings, the removal of inline
  markdown from each heading's text, and the anchor id derived from it.

  Every regular expression is modelled as JavaScript's backtracking matcher
  runs it: a global `replace` is a left-to-right scan that at each index tries
  the pattern (taking the shortest match of each lazy group) and, after a match,
  resumes at its end; a global `exec` loop searches forward from `lastIndex`.
*/
module TableOfContents {
  import opened Wrappers
  import opened JsString

  /** `lit` occurs in `s` at index `i`. */
  predicate StartsWith(s: string, i: nat, lit: string) {
    i + |lit| <= |s| && forall k :: 0 <= k < |lit| ==> s[i + k] == lit[k]
  }

  // ---------------------------------------------------------------------------
  // cleanMarkdownText
  // ---------------------------------------------------------------------------

  /** The nine `replace` calls, in the order they are applied. */
  datatype Rule =
    | Bold              // /\*\*(.+?)\*\*/g -> '$1'
    | BoldUnderscore    // /__(.+?)__/g -> '$1'
    | Italic            // /\*(.+?)\*/g -> '$1'
    | ItalicUnderscore  // /_(.+?)_/g -> '$1'
    | InlineCode        // /`(.+?)`/g -> '$1'
    | Link              // /\[(.+?)\]\(.+?\)/g -> '$1'
    | Image             // /!\[.*?\]\(.+?\)/g -> ''
    | Strike            // /~~(.+?)~~/g -> '$1'
    | Escape            // /\\([*_`~\[\]()])/g -> '$1'

  /** The characters with which some rule's match must begin (an image begins `![`). */
  predicate IsMarker(c: char) {
    c == '*' || c == '_' || c == '`' || c == '[' || c == '~' || c == '\\'
  }

  /** The character with which a match of `rule` begins. */
  function OpenChar(rule: Rule): char {
    match rule
    case Bold => '*'
    case BoldUnderscore => '_'
    case Italic => '*'
    case ItalicUnderscore => '_'
    case InlineCode => '`'
    case Link => '['
    case Image => '!'
    case Strike => '~'
    case Escape => '\\'
  }

  /** The characters `\\(...)` un-escapes. */
  predicate IsEscapable(c: char) {
    c == '*' || c == '_' || c == '`' || c == '~' || c == '[' || c == ']' || c == '(' || c == ')'
  }

  /**
    A lazy group `.+?` or `.*?` followed by the literal `close`: starting the
    scan at `j`, the least index `k >= min` at which `close` occurs, provided
    no line terminator (which `.` does not match) lies before it.
  */
  function LazyUntil(s: string, j: nat, min: nat, close: string): (r: Option<nat>)
    requires j <= |s|
    ensures r.Some? ==> j <= r.value && min <= r.value && StartsWith(s, r.value, close)
    decreases |s| - j
  {
    if min <= j && StartsWith(s, j, close) then Some(j)
    else if j < |s| && !IsLineTerminator(s[j]) then LazyUntil(s, j + 1, min, close)
    else None
  }

  /** The lazy group stays on one line and stops at the first admissible `close`. */
  lemma {:induction false} LazyUntilSpec(s: string, j: nat, min: nat, close: string)
    requires j <= |s|
    ensures var r := LazyUntil(s, j, min, close);
      && (r.Some? ==> forall k :: j <= k < r.value ==> !IsLineTerminator(s[k]))
      && (r.Some? ==> forall k :: j <= k < r.value && min <= k ==> !StartsWith(s, k, close))
    decreases |s| - j
  {
    if !(min <= j && StartsWith(s, j, close)) && j < |s| && !IsLineTerminator(s[j]) {
      LazyUntilSpec(s, j + 1, min, close);
    }
  }

  /** Conversely, with neither a line break nor the first character of `close` before `k`, the group ends at `k`. */
  lemma {:induction false} LazyUntilFirst(s: string, j: nat, min: nat, close: string, k: nat)
    requires j <= k <= |s| && min <= k && |close| > 0 && StartsWith(s, k, close)
    requires forall p :: j <= p < k ==> !IsLineTerminator(s[p]) && s[p] != close[0]
    ensures LazyUntil(s, j, min, close) == Some(k)
    decreases k - j
  {
    if j < k {
      assert s[j + 0] != close[0];
      LazyUntilFirst(s, j + 1, min, close, k);
    }
  }

  /** A replacement text and the index just after the match it replaces. */
  datatype Hit = Hit(replacement: string, end: nat)

  /** `open(.+?)close` at index `i`, replaced by its group. */
  function Delimited(s: string, i: nat, open: string, close: string): (r: Option<Hit>)
    requires i <= |s| && |open| > 0
    ensures r.Some? ==> StartsWith(s, i, open) && s[i] == open[0]
    ensures r.Some? ==> i + |open| < r.value.end - |close| && r.value.end <= |s|
    ensures r.Some? ==> r.value.replacement == s[i + |open|..r.value.end - |close|]
  {
    if !StartsWith(s, i, open) then None
    else
      var g := i + |open|;
      match LazyUntil(s, g, g + 1, close)
      case None => None
      case Some(k) => Some(Hit(s[g..k], k + |close|))
  }

  /** `\[(.+?)\]\(.+?\)` at index `i`, replaced by the link text. */
  function LinkAt(s: string, i: nat): (r: Option<Hit>)
    requires i <= |s|
    ensures r.Some? ==> i < |s| && s[i] == '[' && i + 5 < r.value.end <= |s|
  {
    if i == |s| || s[i] != '[' then None
    else
      match BracketTail(s, i + 2, i + 1)
      case None => None
      case Some(km) => Some(Hit(s[i + 1..km.0], km.1))
  }

  /** `!\[.*?\]\(.+?\)` at index `i`, removed. */
  function ImageAt(s: string, i: nat): (r: Option<Hit>)
    requires i <= |s|
    ensures r.Some? ==> i + 1 < |s| && s[i] == '!' && s[i + 1] == '[' && i + 5 < r.value.end <= |s|
    ensures r.Some? ==> r.value.replacement == []
  {
    if i + 1 >= |s| || s[i] != '!' || s[i + 1] != '[' then None
    else
      match BracketTail(s, i + 2, i + 2)
      case None => None
      case Some(km) => Some(Hit([], km.1))
  }

  /** `\\([*_`~\[\]()])` at index `i`, replaced by the escaped character. */
  function EscapeAt(s: string, i: nat): (r: Option<Hit>)
    requires i <= |s|
    ensures r.Some? ==> i + 1 < |s| && s[i] == '\\' && r.value == Hit([s[i + 1]], i + 2)
  {
    if i + 1 < |s| && s[i] == '\\' && IsEscapable(s[i + 1]) then Some(Hit([s[i + 1]], i + 2)) else None
  }

  /**
    The tail `...?\]\(.+?\)` shared by the link and image patterns, with the
    JavaScript backtracking: the first group is extended to each `](` in turn
    (scanning from `j`, ending no earlier than `min`) until the lazy `.+?\)`
    after it succeeds. Yields the index where `](` starts and the match end.
  */
  function BracketTail(s: string, min: nat, j: nat): (r: Option<(nat, nat)>)
    requires j <= |s|
    ensures r.Some? ==> j <= r.value.0 && min <= r.value.0 && StartsWith(s, r.value.0, "](")
    ensures r.Some? ==> r.value.0 + 3 < r.value.1 <= |s| && s[r.value.1 - 1] == ')'
    decreases |s| - j
  {
    match LazyUntil(s, j, min, "](")
    case None => None
    case Some(k) =>
      match LazyUntil(s, k + 2, k + 3, ")")
      case Some(t) => assert s[t + 0] == ")"[0]; Some((k, t + 1))
      case None => BracketTail(s, min, k + 1)
  }

  /** The match of `rule`'s pattern beginning exactly at index `i`, if any. */
  function MatchRule(rule: Rule, s: string, i: nat): (r: Option<Hit>)
    requires i <= |s|
    ensures r.Some? ==> i < r.value.end <= |s|
    ensures r.Some? ==> s[i] == OpenChar(rule)
    ensures r.Some? ==> IsMarker(s[i]) || (s[i] == '!' && i + 1 < |s| && s[i + 1] == '[')
  {
    match rule
    case Bold => Delimited(s, i, "**", "**")
    case BoldUnderscore => Delimited(s, i, "__", "__")
    case Italic => Delimited(s, i, "*", "*")
    case ItalicUnderscore => Delimited(s, i, "_", "_")
    case InlineCode => Delimited(s, i, "`", "`")
    case Strike => Delimited(s, i, "~~", "~~")
    case Link => LinkAt(s, i)
    case Image => ImageAt(s, i)
    case Escape => EscapeAt(s, i)
  }

  /** Global `replace` of `rule`'s pattern over `s[i..]`. */
  function ReplaceFrom(rule: Rule, s: string, i: nat): (r: string)
    requires i <= |s|
    decreases |s| - i
  {
    if i == |s| then []
    else
      match MatchRule(rule, s, i)
      case Some(h) => h.replacement + ReplaceFrom(rule, s, h.end)
      case None => [s[i]] + ReplaceFrom(rule, s, i + 1)
  }

  function ReplaceAll(rule: Rule, s: string): string {
    ReplaceFrom(rule, s, 0)
  }

  /** The nine replacements of `cleanMarkdownText`, in source order. */
  function StripInlineMarkdown(text: string): string
  {
    var bold := ReplaceAll(Bold, text);
    var boldUnderscore := ReplaceAll(BoldUnderscore, bold);
    var italic := ReplaceAll(Italic, boldUnderscore);
    var italicUnderscore := ReplaceAll(ItalicUnderscore, italic);
    var code := ReplaceAll(InlineCode, italicUnderscore);
    var link := ReplaceAll(Link, code);
    var image := ReplaceAll(Image, link);
    var strike := ReplaceAll(Strike, image);
    ReplaceAll(Escape, strike)
  }

  /** `cleanMarkdownText`: the nine replacements, then `trim`. */
  function CleanMarkdownText(text: string): (r: string)
    ensures r == [] || (!IsWhitespace(r[0]) && !IsWhitespace(r[|r| - 1]))
  {
    Trim(StripInlineMarkdown(text))
  }

  /** Without a marker character a scan replaces nothing. */
  lemma {:induction false} ReplaceFromUnmarked(rule: Rule, s: string, i: nat)
    requires i <= |s|
    requires forall k :: i <= k < |s| ==> !IsMarker(s[k])
    ensures ReplaceFrom(rule, s, i) == s[i..]
    decreases |s| - i
  {
    if i < |s| {
      assert MatchRule(rule, s, i).None? by {
        if i + 1 < |s| { assert !IsMarker(s[i + 1]); }
      }
      ReplaceFromUnmarked(rule, s, i + 1);
      assert s[i..] == [s[i]] + s[i + 1..];
    }
  }

  lemma ReplaceAllUnmarked(rule: Rule, s: string)
    requires forall k :: 0 <= k < |s| ==> !IsMarker(s[k])
    ensures ReplaceAll(rule, s) == s
  {
    ReplaceFromUnmarked(rule, s, 0);
    assert s[0..] == s;
  }

  /** A rule changes nothing in text that lacks its opening character. */
  lemma {:induction false} ReplaceFromWithout(rule: Rule, s: string, i: nat)
    requires i <= |s|
    requires forall k :: i <= k < |s| ==> s[k] != OpenChar(rule)
    ensures ReplaceFrom(rule, s, i) == s[i..]
    decreases |s| - i
  {
    if i < |s| {
      ReplaceFromWithout(rule, s, i + 1);
      assert s[i..] == [s[i]] + s[i + 1..];
    }
  }

  lemma ReplaceAllWithout(rule: Rule, s: string)
    requires OpenChar(rule) !in s
    ensures ReplaceAll(rule, s) == s
  {
    assert forall k :: 0 <= k < |s| ==> s[k] != OpenChar(rule) by {
      forall k | 0 <= k < |s| ensures s[k] != OpenChar(rule) { assert s[k] in s; }
    }
    ReplaceFromWithout(rule, s, 0);
    assert s[0..] == s;
  }

  /** Text with none of `*`, `_`, `` ` ``, `[`, `~`, `\` is only trimmed. */
  lemma CleanUnmarked(text: string)
    requires forall k :: 0 <= k < |text| ==> !IsMarker(text[k])
    ensures CleanMarkdownText(text) == Trim(text)
  {
    ReplaceAllUnmarked(Bold, text);
    ReplaceAllUnmarked(BoldUnderscore, text);
    ReplaceAllUnmarked(Italic, text);
    ReplaceAllUnmarked(ItalicUnderscore, text);
    ReplaceAllUnmarked(InlineCode, text);
    ReplaceAllUnmarked(Link, text);
    ReplaceAllUnmarked(Image, text);
    ReplaceAllUnmarked(Strike, text);
    ReplaceAllUnmarked(Escape, text);
  }

  // ---------------------------------------------------------------------------
  // Anchor ids
  // ---------------------------------------------------------------------------

  /** The characters an id may hold: `a`-`z`, `0`-`9`, the Hangul syllables U+AC00-U+D7A3 and `-`. */
  predicate IsIdChar(c: char) {
    ('a' <= c <= 'z') || ('0' <= c <= '9') || ('\U{AC00}' <= c <= '\U{D7A3}') || c == '-'
  }

  /** `.replace(/[^a-z0-9가-힣\s-]/g, '')`. */
  function KeepIdChars(s: string): (r: string)
    ensures |r| <= |s|
    ensures forall k :: 0 <= k < |r| ==> IsIdChar(r[k]) || IsWhitespace(r[k])
    ensures (forall k :: 0 <= k < |s| ==> IsIdChar(s[k]) || IsWhitespace(s[k])) ==> r == s
  {
    if s == [] then []
    else if IsIdChar(s[0]) || IsWhitespace(s[0]) then [s[0]] + KeepIdChars(s[1..])
    else KeepIdChars(s[1..])
  }

  /** `.replace(/\s+/g, '-')`: each maximal run of whitespace becomes one `-`. */
  function HyphenateWhitespace(s: string): (r: string)
    ensures |r| <= |s|
    ensures forall k :: 0 <= k < |r| ==> !IsWhitespace(r[k])
    ensures forall k :: 0 <= k < |r| ==> r[k] == '-' || r[k] in s
    decreases |s|
  {
    if s == [] then []
    else if IsWhitespace(s[0]) then
      var rest := HyphenateWhitespace(s[LeadingWhitespace(s)..]);
      assert forall k :: 0 <= k < |rest| ==> rest[k] == '-' || rest[k] in s by {
        forall k | 0 <= k < |rest| && rest[k] != '-' ensures rest[k] in s {
          var j :| 0 <= j < |s[LeadingWhitespace(s)..]| && s[LeadingWhitespace(s)..][j] == rest[k];
          assert s[LeadingWhitespace(s) + j] == rest[k];
        }
      }
      "-" + rest
    else
      var rest := HyphenateWhitespace(s[1..]);
      assert forall k :: 0 <= k < |rest| ==> rest[k] == '-' || rest[k] in s by {
        forall k | 0 <= k < |rest| && rest[k] != '-' ensures rest[k] in s {
          var j :| 0 <= j < |s[1..]| && s[1..][j] == rest[k];
          assert s[1 + j] == rest[k];
        }
      }
      [s[0]] + rest
  }

  /** A non-empty run of whitespace ending before a non-whitespace character (or the end) is one `-`. */
  lemma HyphenateRun(w: string, b: string)
    requires w != [] && AllWhitespace(w)
    requires b == [] || !IsWhitespace(b[0])
    ensures HyphenateWhitespace(w + b) == "-" + HyphenateWhitespace(b)
  {
    var s := w + b;
    assert IsWhitespace(s[0]);
    LeadingOfRun(w, b);
    assert s[|w|..] == b;
  }

  lemma {:induction false} LeadingOfRun(w: string, b: string)
    requires AllWhitespace(w)
    requires b == [] || !IsWhitespace(b[0])
    ensures LeadingWhitespace(w + b) == |w|
  {
    if w == [] {
      assert w + b == b;
    } else {
      assert (w + b)[1..] == w[1..] + b;
      LeadingOfRun(w[1..], b);
    }
  }

  /** Text without whitespace is left alone. */
  lemma {:induction false} HyphenateNoWhitespace(s: string)
    requires forall k :: 0 <= k < |s| ==> !IsWhitespace(s[k])
    ensures HyphenateWhitespace(s) == s
  {
    if s != [] {
      HyphenateNoWhitespace(s[1..]);
    }
  }

  /** The id of a heading: lower-cased, filtered, whitespace runs hyphenated. */
  function HeadingId(rawText: string): (id: string)
    ensures |id| <= |rawText|
    ensures forall k :: 0 <= k < |id| ==> IsIdChar(id[k]) && !IsWhitespace(id[k])
  {
    var kept := KeepIdChars(ToLower(rawText));
    var id := HyphenateWhitespace(kept);
    assert forall k :: 0 <= k < |id| ==> IsIdChar(id[k]) by {
      forall k | 0 <= k < |id| ensures IsIdChar(id[k]) {
        if id[k] != '-' {
          var j :| 0 <= j < |kept| && kept[j] == id[k];
        }
      }
    }
    id
  }

  /** The filter works character by character: each part keeps its own characters, in order. */
  lemma {:induction false} KeepIdCharsAppend(a: string, b: string)
    ensures KeepIdChars(a + b) == KeepIdChars(a) + KeepIdChars(b)
  {
    if a == [] {
      assert a + b == b;
    } else {
      assert (a + b)[0] == a[0];
      assert (a + b)[1..] == a[1..] + b;
      KeepIdCharsAppend(a[1..], b);
    }
  }

  /** One character is kept exactly when it is an id character or whitespace. */
  lemma KeepIdCharsOne(c: char)
    ensures KeepIdChars([c]) == if IsIdChar(c) || IsWhitespace(c) then [c] else []
  {
    assert [c][1..] == [];
  }

  /** A character that is not whitespace is copied to the front of the result. */
  lemma HyphenateCons(c: char, s: string)
    requires !IsWhitespace(c)
    ensures HyphenateWhitespace([c] + s) == [c] + HyphenateWhitespace(s)
  {
    assert ([c] + s)[0] == c;
    assert ([c] + s)[1..] == s;
  }

  /** A prefix without whitespace is copied to the front of the result. */
  lemma {:induction false} HyphenateWord(w: string, s: string)
    requires forall k :: 0 <= k < |w| ==> !IsWhitespace(w[k])
    ensures HyphenateWhitespace(w + s) == w + HyphenateWhitespace(s)
  {
    if w == [] {
      assert w + s == s;
    } else {
      assert w + s == [w[0]] + (w[1..] + s);
      HyphenateCons(w[0], w[1..] + s);
      HyphenateWord(w[1..], s);
      assert w == [w[0]] + w[1..];
    }
  }

  /** Lower-casing works character by character. */
  lemma ToLowerAround(a: string, c: char, b: string)
    ensures ToLower(a + [c] + b) == ToLower(a) + [LowerChar(c)] + ToLower(b)
  {
    var l, r := ToLower(a + [c] + b), ToLower(a) + [LowerChar(c)] + ToLower(b);
    assert |l| == |r|;
    forall k | 0 <= k < |l| ensures l[k] == r[k] {
      if k < |a| {
        assert (a + [c] + b)[k] == a[k];
      } else if k == |a| {
        assert (a + [c] + b)[k] == c;
      } else {
        assert (a + [c] + b)[k] == b[k - |a| - 1];
      }
    }
  }

  lemma ToLowerAppend(a: string, b: string)
    ensures ToLower(a + b) == ToLower(a) + ToLower(b)
  {
    var l, r := ToLower(a + b), ToLower(a) + ToLower(b);
    assert |l| == |r|;
    forall k | 0 <= k < |l| ensures l[k] == r[k] {
      if k < |a| {
        assert (a + b)[k] == a[k];
      } else {
        assert (a + b)[k] == b[k - |a|];
      }
    }
  }

  lemma {:induction false} KeptDrops(a: string, c: char, b: string)
    requires !IsIdChar(LowerChar(c)) && !IsWhitespace(LowerChar(c))
    ensures KeepIdChars(ToLower(a + [c] + b)) == KeepIdChars(ToLower(a + b))
  {
    var la, lb, d := ToLower(a), ToLower(b), LowerChar(c);
    ToLowerAround(a, c, b);
    ToLowerAppend(a, b);
    KeepIdCharsAppend(la + [d], lb);
    KeepIdCharsAppend(la, [d]);
    KeepIdCharsOne(d);
    KeepIdCharsAppend(la, lb);
    assert KeepIdChars(la) + [] == KeepIdChars(la);
  }

  /** A character the id may not hold, such as punctuation, is dropped without a trace. */
  lemma HeadingIdDrops(a: string, c: char, b: string)
    requires !IsIdChar(LowerChar(c)) && !IsWhitespace(LowerChar(c))
    ensures HeadingId(a + [c] + b) == HeadingId(a + b)
  {
    KeptDrops(a, c, b);
  }

  /** Text already made of id characters is its own lower-cased, filtered form. */
  lemma IdTextUnchanged(s: string)
    requires forall k :: 0 <= k < |s| ==> IsIdChar(s[k]) || IsWhitespace(s[k])
    ensures KeepIdChars(ToLower(s)) == s
  {
    assert ToLower(s) == s;
  }

  /** Two words without whitespace around a whitespace run become the words joined by one `-`. */
  lemma HyphenateWords(w1: string, ws: string, w2: string)
    requires forall k :: 0 <= k < |w1| ==> !IsWhitespace(w1[k])
    requires forall k :: 0 <= k < |w2| ==> !IsWhitespace(w2[k])
    requires ws != [] && AllWhitespace(ws)
    ensures HyphenateWhitespace(w1 + (ws + w2)) == w1 + ("-" + w2)
  {
    HyphenateWord(w1, ws + w2);
    HyphenateRun(ws, w2);
    HyphenateNoWhitespace(w2);
  }

  /** Words of id characters around whitespace hold only id characters and whitespace. */
  lemma IdWordsChars(w1: string, ws: string, w2: string)
    requires forall k :: 0 <= k < |w1| ==> IsIdChar(w1[k])
    requires forall k :: 0 <= k < |w2| ==> IsIdChar(w2[k])
    requires AllWhitespace(ws)
    ensures forall k :: 0 <= k < |w1 + (ws + w2)| ==> IsIdChar((w1 + (ws + w2))[k]) || IsWhitespace((w1 + (ws + w2))[k])
  {
    var s := w1 + (ws + w2);
    forall k | 0 <= k < |s| ensures IsIdChar(s[k]) || IsWhitespace(s[k]) {
      if k < |w1| {
        assert s[k] == w1[k];
      } else if k < |w1| + |ws| {
        assert s[k] == ws[k - |w1|];
      } else {
        assert s[k] == w2[k - |w1| - |ws|];
      }
    }
  }

  /** Two words of id characters around a whitespace run are joined by one `-`. */
  lemma HeadingIdWords(w1: string, ws: string, w2: string)
    requires forall k :: 0 <= k < |w1| ==> IsIdChar(w1[k])
    requires forall k :: 0 <= k < |w2| ==> IsIdChar(w2[k])
    requires ws != [] && AllWhitespace(ws)
    ensures HeadingId(w1 + (ws + w2)) == w1 + ("-" + w2)
  {
    IdWordsChars(w1, ws, w2);
    IdTextUnchanged(w1 + (ws + w2));
    HyphenateWords(w1, ws, w2);
  }

  // ---------------------------------------------------------------------------
  // Heading extraction: /^(#{1,3})\s+(.+)$/gm
  // ---------------------------------------------------------------------------

  /** Under the `m` flag `^` holds at the start and just after a line terminator. */
  predicate IsLineStart(s: string, p: nat) {
    p == 0 || (p <= |s| && IsLineTerminator(s[p - 1]))
  }

  /** `#{1,3}` taken greedily: the number of `#` at `p`, at most `cap`. */
  function HashCount(s: string, p: nat, cap: nat): (n: nat)
    requires p <= |s|
    ensures n <= cap && p + n <= |s|
    decreases cap
  {
    if cap == 0 || p == |s| || s[p] != '#' then 0 else 1 + HashCount(s, p + 1, cap - 1)
  }

  /** `HashCount` counts a run of `#` and stops at the first other character or at `cap`. */
  lemma {:induction false} HashCountSpec(s: string, p: nat, cap: nat)
    requires p <= |s|
    ensures var n := HashCount(s, p, cap);
      && (forall k :: p <= k < p + n ==> s[k] == '#')
      && (n < cap && p + n < |s| ==> s[p + n] != '#')
    decreases cap
  {
    if cap > 0 && p < |s| && s[p] == '#' {
      HashCountSpec(s, p + 1, cap - 1);
    }
  }

  /** `\s+` taken greedily from `a`: the end of the whitespace run. */
  function WhitespaceEnd(s: string, a: nat): (q: nat)
    requires a <= |s|
    ensures a <= q <= |s|
    decreases |s| - a
  {
    if a == |s| || !IsWhitespace(s[a]) then a else WhitespaceEnd(s, a + 1)
  }

  lemma {:induction false} WhitespaceEndSpec(s: string, a: nat)
    requires a <= |s|
    ensures var q := WhitespaceEnd(s, a);
      && (forall k :: a <= k < q ==> IsWhitespace(s[k]))
      && (q < |s| ==> !IsWhitespace(s[q]))
    decreases |s| - a
  {
    if a < |s| && IsWhitespace(s[a]) {
      WhitespaceEndSpec(s, a + 1);
    }
  }

  /** Where `(.+)$` stops: the first line terminator at or after `j`, or the end. */
  function LineEnd(s: string, j: nat): (e: nat)
    requires j <= |s|
    ensures j <= e <= |s|
    decreases |s| - j
  {
    if j == |s| || IsLineTerminator(s[j]) then j else LineEnd(s, j + 1)
  }

  lemma {:induction false} LineEndSpec(s: string, j: nat)
    requires j <= |s|
    ensures var e := LineEnd(s, j);
      && (forall k :: j <= k < e ==> !IsLineTerminator(s[k]))
      && (e < |s| ==> IsLineTerminator(s[e]))
    decreases |s| - j
  {
    if j < |s| && !IsLineTerminator(s[j]) {
      LineEndSpec(s, j + 1);
    }
  }

  /** The last index in `[lo, hi)` holding a character other than a line terminator. */
  function LastNonTerminator(s: string, lo: nat, hi: nat): (r: Option<nat>)
    requires lo <= hi <= |s|
    ensures r.Some? ==> lo <= r.value < hi
    decreases hi - lo
  {
    if lo == hi then None
    else if !IsLineTerminator(s[hi - 1]) then Some(hi - 1)
    else LastNonTerminator(s, lo, hi - 1)
  }

  lemma {:induction false} LastNonTerminatorSpec(s: string, lo: nat, hi: nat)
    requires lo <= hi <= |s|
    ensures var r := LastNonTerminator(s, lo, hi);
      && (r.Some? ==> !IsLineTerminator(s[r.value]))
      && (r.Some? ==> forall k :: r.value < k < hi ==> IsLineTerminator(s[k]))
      && (r.None? ==> forall k :: lo <= k < hi ==> IsLineTerminator(s[k]))
    decreases hi - lo
  {
    if lo < hi && IsLineTerminator(s[hi - 1]) {
      LastNonTerminatorSpec(s, lo, hi - 1);
    }
  }

  /** One match of the heading pattern: where it starts, the `#` count, and group 2. */
  datatype HeadingMatch = HeadingMatch(start: nat, level: nat, textStart: nat, textEnd: nat)

  /** What any match of `^(#{1,3})\s+(.+)$` at `m.start` looks like. */
  predicate WellFormed(s: string, m: HeadingMatch) {
    && IsLineStart(s, m.start)
    && 1 <= m.level <= 3
    && m.start + m.level < m.textStart < m.textEnd <= |s|
    && (forall k :: m.start <= k < m.start + m.level ==> s[k] == '#')
    && (forall k :: m.start + m.level <= k < m.textStart ==> IsWhitespace(s[k]))
    && (forall k :: m.textStart <= k < m.textEnd ==> !IsLineTerminator(s[k]))
    && (m.textEnd == |s| || IsLineTerminator(s[m.textEnd]))
  }

  /**
    The heading pattern tried at index `p`. `\s+` is greedy and may cross
    line breaks; if the whitespace runs to the end of the input, the matcher
    backs off to the last whitespace character that `.` can match.
  */
  function MatchAt(s: string, p: nat): (r: Option<HeadingMatch>)
    requires p <= |s|
    ensures r.Some? ==> r.value.start == p < r.value.textStart <= r.value.textEnd <= |s|
  {
    if p == |s| || !IsLineStart(s, p) then None
    else
      var n := HashCount(s, p, 3);
      if n == 0 || p + n == |s| || !IsWhitespace(s[p + n]) then None
      else
        var a := p + n;
        var q := WhitespaceEnd(s, a);
        var ts := if q < |s| then Some(q) else LastNonTerminator(s, a + 1, q);
        match ts
        case None => None
        case Some(t) => Some(HeadingMatch(p, n, t, LineEnd(s, t)))
  }

  /** Whatever `MatchAt` yields has the shape of the pattern. */
  lemma MatchAtWellFormed(s: string, p: nat)
    requires p <= |s| && MatchAt(s, p).Some?
    ensures WellFormed(s, MatchAt(s, p).value)
  {
    var n := HashCount(s, p, 3);
    HashCountSpec(s, p, 3);
    var a := p + n;
    WhitespaceEndSpec(s, a);
    var q := WhitespaceEnd(s, a);
    if q == |s| {
      LastNonTerminatorSpec(s, a + 1, q);
    }
    LineEndSpec(s, MatchAt(s, p).value.textStart);
  }

  /** A line of four or more `#` is never a heading. */
  lemma FourHashesNoMatch(s: string, p: nat)
    requires p + 4 <= |s| && s[p] == '#' && s[p + 1] == '#' && s[p + 2] == '#' && s[p + 3] == '#'
    ensures MatchAt(s, p) == None
  {
    if IsLineStart(s, p) {
      assert HashCount(s, p, 3) == 3;
    }
  }

  /**
    Conversely, a line start with one to three `#`, then whitespace, then
    (perhaps after more whitespace and line breaks) any other character, is
    matched with that many `#` as its level.
  */
  lemma MatchAtComplete(s: string, p: nat, n: nat, k: nat)
    requires IsLineStart(s, p) && 1 <= n <= 3 && p + n < k < |s|
    requires forall j :: p <= j < p + n ==> s[j] == '#'
    requires IsWhitespace(s[p + n]) && !IsWhitespace(s[k])
    ensures MatchAt(s, p).Some? && MatchAt(s, p).value.level == n
  {
    HashCountSpec(s, p, 3);
    assert s[p + n] != '#';
    assert HashCount(s, p, 3) == n;
    WhitespaceEndSpec(s, p + n);
    var q := WhitespaceEnd(s, p + n);
    assert q <= k;
  }

  /** `headingRegex.exec(content)` with `lastIndex == from`: the first match at or after `from`. */
  function Exec(s: string, from: nat): (r: Option<HeadingMatch>)
    requires from <= |s|
    ensures r.Some? ==> from <= r.value.start <= |s| && MatchAt(s, r.value.start) == r
    ensures r.Some? ==> forall p :: from <= p < r.value.start ==> MatchAt(s, p).None?
    ensures r.None? ==> forall p :: from <= p <= |s| ==> MatchAt(s, p).None?
    decreases |s| - from
  {
    if from == |s| then
      assert MatchAt(s, from).None?;
      None
    else
      var here := MatchAt(s, from);
      if here.Some? then here
      else
        var r := Exec(s, from + 1);
        assert r.None? ==> forall p :: from <= p <= |s| ==> MatchAt(s, p).None?;
        r
  }

  /** `m` is what the pattern yields at `m.start`. */
  predicate IsMatch(s: string, m: HeadingMatch) {
    m.start <= |s| && MatchAt(s, m.start) == Some(m)
  }

  /** The successive results of the `exec` loop, each search resuming where the last match ended. */
  function MatchesFrom(s: string, from: nat): (ms: seq<HeadingMatch>)
    requires from <= |s|
    ensures forall i :: 0 <= i < |ms| ==> from <= ms[i].start < ms[i].textStart <= ms[i].textEnd <= |s|
    decreases |s| - from
  {
    match Exec(s, from)
    case None => []
    case Some(m) => [m] + MatchesFrom(s, m.textEnd)
  }

  /** Every element of the list is what the pattern yields at its start. */
  lemma {:induction false} MatchesAreMatches(s: string, from: nat, i: nat)
    requires from <= |s| && i < |MatchesFrom(s, from)|
    ensures IsMatch(s, MatchesFrom(s, from)[i])
    decreases |s| - from
  {
    MatchesStep(s, from);
    var m := Exec(s, from).value;
    if i > 0 {
      MatchesAreMatches(s, m.textEnd, i - 1);
    }
  }

  /** Every match the loop finds has the shape of the pattern. */
  lemma MatchesWellFormed(s: string, from: nat)
    requires from <= |s|
    ensures forall i :: 0 <= i < |MatchesFrom(s, from)| ==> WellFormed(s, MatchesFrom(s, from)[i])
  {
    var ms := MatchesFrom(s, from);
    forall i | 0 <= i < |ms| ensures WellFormed(s, ms[i]) {
      MatchesAreMatches(s, from, i);
      MatchAtWellFormed(s, ms[i].start);
    }
  }

  /** One step of the `exec` loop: the first match, then the matches after it. */
  lemma MatchesStep(s: string, from: nat)
    requires from <= |s|
    ensures Exec(s, from).None? ==> MatchesFrom(s, from) == []
    ensures Exec(s, from).Some? ==>
      && Exec(s, from).value.textEnd <= |s|
      && MatchesFrom(s, from) == [Exec(s, from).value] + MatchesFrom(s, Exec(s, from).value.textEnd)
  {
    if Exec(s, from).Some? {
      assert MatchesFrom(s, from) == [Exec(s, from).value] + MatchesFrom(s, Exec(s, from).value.textEnd);
    }
  }

  function Matches(content: string): (ms: seq<HeadingMatch>)
    ensures InBounds(content, ms)
  {
    MatchesFrom(content, 0)
  }

  /** Each search resumes where the previous match ended. */
  lemma {:induction false} MatchesAdjacent(s: string, from: nat, k: nat)
    requires from <= |s|
    requires k + 1 < |MatchesFrom(s, from)|
    ensures MatchesFrom(s, from)[k].textEnd <= MatchesFrom(s, from)[k + 1].start
    decreases |s| - from
  {
    MatchesStep(s, from);
    var m := Exec(s, from).value;
    var rest := MatchesFrom(s, m.textEnd);
    if k > 0 {
      MatchesAdjacent(s, m.textEnd, k - 1);
    }
  }

  /** Matches never overlap and come in the order of the text. */
  lemma {:induction false} MatchesOrdered(s: string, from: nat, i: nat, j: nat)
    requires from <= |s|
    requires i < j < |MatchesFrom(s, from)|
    ensures MatchesFrom(s, from)[i].textEnd <= MatchesFrom(s, from)[j].start
    decreases j - i
  {
    var ms := MatchesFrom(s, from);
    MatchesAdjacent(s, from, j - 1);
    if i < j - 1 {
      MatchesOrdered(s, from, i, j - 1);
    }
  }

  /** Some match in `ms` starts at or before `p` and ends after it. */
  predicate Covers(ms: seq<HeadingMatch>, p: nat) {
    exists i :: 0 <= i < |ms| && ms[i].start <= p < ms[i].textEnd
  }

  /** Every index where the pattern would match either starts a match of the loop or lies inside one. */
  lemma {:induction false} MatchesComplete(s: string, from: nat, p: nat)
    requires from <= p <= |s|
    requires MatchAt(s, p).Some?
    ensures Covers(MatchesFrom(s, from), p)
    decreases |s| - from
  {
    MatchesStep(s, from);
    var m := Exec(s, from).value;
    if m.textEnd <= p {
      MatchesComplete(s, m.textEnd, p);
    }
    CoversCons(m, MatchesFrom(s, m.textEnd), p);
  }

  lemma CoversCons(m: HeadingMatch, rest: seq<HeadingMatch>, p: nat)
    requires (m.start <= p < m.textEnd) || Covers(rest, p)
    ensures Covers([m] + rest, p)
  {
    if m.start <= p < m.textEnd {
      assert ([m] + rest)[0] == m;
    } else {
      var i :| 0 <= i < |rest| && rest[i].start <= p < rest[i].textEnd;
      assert ([m] + rest)[i + 1] == rest[i];
    }
  }

  // ---------------------------------------------------------------------------
  // The headings
  // ---------------------------------------------------------------------------

  /** `TOCItem`. */
  datatype TocItem = TocItem(id: string, text: string, level: nat)

  /** The entry for one match: the id from the trimmed raw text, the text cleaned of markdown. */
  function ItemOf(s: string, m: HeadingMatch): TocItem
    requires m.textStart <= m.textEnd <= |s|
  {
    var rawText := Trim(s[m.textStart..m.textEnd]);
    TocItem(HeadingId(rawText), CleanMarkdownText(rawText), m.level)
  }

  /** Every match's text span lies inside `s`. */
  predicate InBounds(s: string, ms: seq<HeadingMatch>) {
    forall i :: 0 <= i < |ms| ==> ms[i].textStart <= ms[i].textEnd <= |s|
  }

  /** `f` applied to each element, in order, the result built by appending as a `push` loop does. */
  function MapSeq<A, B>(f: A --> B, xs: seq<A>): (ys: seq<B>)
    requires forall i :: 0 <= i < |xs| ==> f.requires(xs[i])
    ensures |ys| == |xs|
  {
    if xs == [] then [] else MapSeq(f, xs[..|xs| - 1]) + [f(xs[|xs| - 1])]
  }

  lemma {:induction false} MapSeqIndex<A, B>(f: A --> B, xs: seq<A>, i: nat)
    requires forall i :: 0 <= i < |xs| ==> f.requires(xs[i])
    requires i < |xs|
    ensures MapSeq(f, xs)[i] == f(xs[i])
  {
    var init := xs[..|xs| - 1];
    if i < |init| {
      MapSeqIndex(f, init, i);
    }
  }

  lemma MapSeqSnoc<A, B>(f: A --> B, xs: seq<A>, n: nat)
    requires forall i :: 0 <= i < |xs| ==> f.requires(xs[i])
    requires n < |xs|
    ensures MapSeq(f, xs[..n + 1]) == MapSeq(f, xs[..n]) + [f(xs[n])]
  {
    assert xs[..n + 1][..n] == xs[..n];
  }

  /** One entry per match, in order. */
  function ItemsOf(s: string, ms: seq<HeadingMatch>): (items: seq<TocItem>)
    requires InBounds(s, ms)
    ensures |items| == |ms|
  {
    MapSeq((m: HeadingMatch) requires m.textStart <= m.textEnd <= |s| => ItemOf(s, m), ms)
  }

  /** The headings, one per match of the `exec` loop, in order. */
  function Headings(content: string): (items: seq<TocItem>)
    ensures |items| == |Matches(content)|
  {
    ItemsOf(content, Matches(content))
  }

  /** The `i`-th heading is the entry for the `i`-th match. */
  lemma HeadingAt(content: string, i: nat)
    requires i < |Matches(content)|
    ensures Headings(content)[i] == ItemOf(content, Matches(content)[i])
  {
    MapSeqIndex((m: HeadingMatch) requires m.textStart <= m.textEnd <= |content| => ItemOf(content, m), Matches(content), i);
  }

  /** The entries for the first `n` matches: what the loop has pushed after `n` turns. */
  function HeadingsUpTo(content: string, n: nat): (items: seq<TocItem>)
    requires n <= |Matches(content)|
    ensures |items| == n
  {
    var all := Matches(content);
    assert InBounds(content, all[..n]) by {
      forall i | 0 <= i < n ensures all[..n][i].textStart <= all[..n][i].textEnd <= |content| {
        assert all[..n][i] == all[i];
      }
    }
    ItemsOf(content, all[..n])
  }

  /** One more turn pushes the entry for the next match. */
  lemma HeadingsUpToSnoc(content: string, n: nat)
    requires n < |Matches(content)|
    ensures HeadingsUpTo(content, n + 1) == HeadingsUpTo(content, n) + [ItemOf(content, Matches(content)[n])]
  {
    MapSeqSnoc((m: HeadingMatch) requires m.textStart <= m.textEnd <= |content| => ItemOf(content, m), Matches(content), n);
  }

  /** After the last match the loop has pushed every entry. */
  lemma HeadingsUpToAll(content: string)
    ensures HeadingsUpTo(content, |Matches(content)|) == Headings(content)
  {
    assert Matches(content)[..|Matches(content)|] == Matches(content);
  }

  /** One turn of the `exec` loop: the match found from `from` is the next one in `Matches`. */
  lemma ExecStep(content: string, n: nat, from: nat)
    requires from <= |content| && Exec(content, from).Some?
    requires n <= |Matches(content)| && Matches(content)[n..] == MatchesFrom(content, from)
    ensures var m := Exec(content, from).value; var all := Matches(content);
      && n < |all| && all[n] == m && from < m.textEnd <= |content|
      && all[n + 1..] == MatchesFrom(content, m.textEnd)
  {
    var all := Matches(content);
    var m := Exec(content, from).value;
    MatchesStep(content, from);
    assert all[n..] == [m] + MatchesFrom(content, m.textEnd);
    assert all[n] == all[n..][0];
    assert all[n + 1..] == all[n..][1..];
  }

  /** The `useMemo` body: the `exec` loop pushing one item per match. */
  method ExtractHeadings(content: string) returns (items: seq<TocItem>)
    ensures items == Headings(content)
  {
    items := [];
    var lastIndex := 0;
    var match_ := Exec(content, lastIndex);
    while match_.Some?
      invariant lastIndex <= |content|
      invariant match_ == Exec(content, lastIndex)
      invariant |items| <= |Matches(content)| && Matches(content)[|items|..] == MatchesFrom(content, lastIndex)
      invariant items == HeadingsUpTo(content, |items|)
      decreases |content| - lastIndex
    {
      var m := match_.value;
      ExecStep(content, |items|, lastIndex);
      HeadingsUpToSnoc(content, |items|);
      var level := m.level;
      var rawText := Trim(content[m.textStart..m.textEnd]);
      var text := CleanMarkdownText(rawText);
      var id := HeadingId(rawText);
      items := items + [TocItem(id, text, level)];
      lastIndex := m.textEnd;
      match_ := Exec(content, lastIndex);
    }
    MatchesStep(content, lastIndex);
    HeadingsUpToAll(content);
  }

  /**
    Each heading's level is the number of `#` opening its line (1 to 3), its
    text has no whitespace at either end, and its id holds only id characters.
  */
  lemma HeadingsShape(content: string, i: nat)
    requires i < |Headings(content)|
    ensures var h := Headings(content)[i]; var m := Matches(content)[i];
      && 1 <= h.level <= 3 && h.level == m.level
      && m.start + h.level < m.textStart <= m.textEnd <= |content|
      && IsLineStart(content, m.start)
      && (forall k :: m.start <= k < m.start + h.level ==> content[k] == '#')
      && IsWhitespace(content[m.start + h.level])
      && (h.text == [] || (!IsWhitespace(h.text[0]) && !IsWhitespace(h.text[|h.text| - 1])))
      && (forall k :: 0 <= k < |h.id| ==> IsIdChar(h.id[k]) && !IsWhitespace(h.id[k]))
  {
    var m := Matches(content)[i];
    HeadingAt(content, i);
    MatchesAreMatches(content, 0, i);
    MatchAtWellFormed(content, m.start);
    var rawText := Trim(content[m.textStart..m.textEnd]);
    assert Headings(content)[i] == TocItem(HeadingId(rawText), CleanMarkdownText(rawText), m.level);
  }

  /** Equal raw heading texts give equal ids: there is no de-duplication. */
  lemma SameTextSameId(content: string, i: nat, j: nat)
    requires i < |Headings(content)| && j < |Headings(content)|
    requires var a := Matches(content)[i]; var b := Matches(content)[j];
      content[a.textStart..a.textEnd] == content[b.textStart..b.textEnd]
    ensures Headings(content)[i].id == Headings(content)[j].id
  {
    HeadingAt(content, i);
    HeadingAt(content, j);
  }

  // ---------------------------------------------------------------------------
  // Worked cases: the rules on well-delimited text, and a heading across a line break
  // ---------------------------------------------------------------------------

  /** Plain text: non-empty, no marker, no line break, no whitespace at either end. */
  predicate Plain(w: string) {
    && w != []
    && (forall k :: 0 <= k < |w| ==> !IsMarker(w[k]) && !IsLineTerminator(w[k]))
    && !IsWhitespace(w[0]) && !IsWhitespace(w[|w| - 1])
  }

  lemma PlainAvoids(w: string)
    requires Plain(w)
    ensures '*' !in w && '_' !in w && '`' !in w && '[' !in w && '~' !in w && '\\' !in w
  {
    forall c | c in w ensures IsMarker(c) == false {
      var k :| 0 <= k < |w| && w[k] == c;
    }
  }

  /** No `*`, `_` or `` ` ``: the first five rules change nothing. */
  lemma NoEmphasisOrCode(s: string)
    requires '*' !in s && '_' !in s && '`' !in s
    ensures ReplaceAll(InlineCode, ReplaceAll(ItalicUnderscore, ReplaceAll(Italic, ReplaceAll(BoldUnderscore, ReplaceAll(Bold, s))))) == s
  {
    ReplaceAllWithout(Bold, s);
    ReplaceAllWithout(BoldUnderscore, s);
    ReplaceAllWithout(Italic, s);
    ReplaceAllWithout(ItalicUnderscore, s);
    ReplaceAllWithout(InlineCode, s);
  }

  /** A URL as the link rule accepts it: non-empty, on one line, without `)`. */
  predicate Url(u: string) {
    && u != [] && ')' !in u && '*' !in u && '_' !in u && '`' !in u
    && forall k :: 0 <= k < |u| ==> !IsLineTerminator(u[k])
  }

  /** The characters of a slice, by index into the whole string. */
  lemma SliceAvoids(s: string, lo: nat, hi: nat, c: char)
    requires lo <= hi <= |s|
    requires c !in s[lo..hi] && forall k :: 0 <= k < hi - lo ==> !IsLineTerminator(s[lo..hi][k])
    ensures forall p :: lo <= p < hi ==> !IsLineTerminator(s[p]) && s[p] != c
  {
    forall p | lo <= p < hi ensures !IsLineTerminator(s[p]) && s[p] != c {
      assert s[p] == s[lo..hi][p - lo];
    }
  }

  lemma StartsWithOne(s: string, p: nat, lit: string)
    requires |lit| == 1 && p < |s| && s[p] == lit[0]
    ensures StartsWith(s, p, lit)
  {
  }

  lemma StartsWithTwo(s: string, p: nat, lit: string)
    requires |lit| == 2 && p + 1 < |s| && s[p] == lit[0] && s[p + 1] == lit[1]
    ensures StartsWith(s, p, lit)
  {
  }

  lemma BracketTailFirst(s: string, min: nat, j: nat, k: nat, t: nat)
    requires j <= |s|
    requires LazyUntil(s, j, min, "](") == Some(k)
    requires k + 2 <= |s| && LazyUntil(s, k + 2, k + 3, ")") == Some(t)
    ensures BracketTail(s, min, j) == Some((k, t + 1))
  {
  }

  lemma LinkAtFirst(s: string, i: nat, k: nat, t: nat)
    requires i < |s| && s[i] == '['
    requires BracketTail(s, i + 2, i + 1) == Some((k, t))
    ensures MatchRule(Link, s, i) == Some(Hit(s[i + 1..k], t))
  {
  }

  /** The link rule at `i`: text `s[i + 1..b]` on one line without `]`, then `](`, a URL `s[b + 2..e]` on one line without `)`, then `)` at `e`. */
  lemma LinkRuleAt(s: string, i: nat, b: nat, e: nat)
    requires i + 1 < b && b + 2 < e < |s|
    requires s[i] == '[' && s[b] == ']' && s[b + 1] == '(' && s[e] == ')'
    requires forall p :: i + 1 <= p < b ==> !IsLineTerminator(s[p]) && s[p] != ']'
    requires forall p :: b + 2 <= p < e ==> !IsLineTerminator(s[p]) && s[p] != ')'
    ensures MatchRule(Link, s, i) == Some(Hit(s[i + 1..b], e + 1))
  {
    StartsWithTwo(s, b, "](");
    LazyUntilFirst(s, i + 1, i + 2, "](", b);
    StartsWithOne(s, e, ")");
    LazyUntilFirst(s, b + 2, b + 3, ")", e);
    BracketTailFirst(s, i + 2, i + 1, b, e);
    LinkAtFirst(s, i, b, e + 1);
  }

  /** The link rule at `i` on a link that runs to the end of the text. */
  lemma LinkRule(s: string, i: nat, b: nat)
    requires i + 1 < b && b + 3 < |s|
    requires s[i] == '[' && s[b] == ']' && s[b + 1] == '(' && s[|s| - 1] == ')'
    requires forall p :: i + 1 <= p < b ==> !IsLineTerminator(s[p]) && s[p] != ']'
    requires forall p :: b + 2 <= p < |s| - 1 ==> !IsLineTerminator(s[p]) && s[p] != ')'
    ensures MatchRule(Link, s, i) == Some(Hit(s[i + 1..b], |s|))
  {
    LinkRuleAt(s, i, b, |s| - 1);
  }

  /** A match that covers the whole text leaves only its replacement. */
  lemma WholeMatch(rule: Rule, s: string, w: string)
    requires 0 < |s| && MatchRule(rule, s, 0) == Some(Hit(w, |s|))
    ensures ReplaceAll(rule, s) == w
  {
    assert ReplaceFrom(rule, s, |s|) == [];
  }

  /** `[w](u)` is replaced by its text `w`. */
  lemma CleanLink(w: string, u: string)
    requires Plain(w) && ']' !in w && Url(u)
    ensures CleanMarkdownText("[" + w + "](" + u + ")") == w
  {
    var s := "[" + w + "](" + u + ")";
    var b := 1 + |w|;
    assert s[1..b] == w && s[b + 2..|s| - 1] == u;
    SliceAvoids(s, 1, b, ']');
    SliceAvoids(s, b + 2, |s| - 1, ')');
    LinkRule(s, 0, b);
    WholeMatch(Link, s, w);
    PlainAvoids(w);
    LinkAvoids(w, u, '*');
    LinkAvoids(w, u, '_');
    LinkAvoids(w, u, '`');
    AfterLink(s, w);
  }

  lemma LinkAvoids(w: string, u: string, c: char)
    requires c !in w && c !in u && c != '[' && c != ']' && c != '(' && c != ')'
    ensures c !in "[" + w + "](" + u + ")"
  {
  }

  /** Text without `*`, `_`, `` ` `` whose link rule leaves plain text cleans to that text. */
  lemma AfterLink(s: string, w: string)
    requires '*' !in s && '_' !in s && '`' !in s
    requires ReplaceAll(Link, s) == w && Plain(w)
    ensures CleanMarkdownText(s) == w
  {
    NoEmphasisOrCode(s);
    ReplaceAllUnmarked(Image, w);
    ReplaceAllUnmarked(Strike, w);
    ReplaceAllUnmarked(Escape, w);
    assert StripInlineMarkdown(s) == w;
    TrimOfTrimmed(w);
  }

  /** `open(.+?)close` at `i` whose group runs on one line without `close[0]` up to `k`. */
  lemma DelimitedRule(s: string, i: nat, open: string, close: string, k: nat)
    requires |open| > 0 && |close| > 0 && StartsWith(s, i, open)
    requires i + |open| < k && StartsWith(s, k, close)
    requires forall p :: i + |open| <= p < k ==> !IsLineTerminator(s[p]) && s[p] != close[0]
    ensures Delimited(s, i, open, close) == Some(Hit(s[i + |open|..k], k + |close|))
  {
    LazyUntilFirst(s, i + |open|, i + |open| + 1, close, k);
  }

  /** `**w**` cleans to `w`. */
  lemma CleanBold(w: string)
    requires Plain(w)
    ensures CleanMarkdownText("**" + w + "**") == w
  {
    var s := "**" + w + "**";
    var k := 2 + |w|;
    assert s[2..k] == w;
    SliceAvoids(s, 2, k, '*');
    StartsWithTwo(s, 0, "**");
    StartsWithTwo(s, k, "**");
    DelimitedRule(s, 0, "**", "**", k);
    WholeMatch(Bold, s, w);
    AfterBold(s, w);
  }

  lemma AfterBold(s: string, w: string)
    requires ReplaceAll(Bold, s) == w && Plain(w)
    ensures CleanMarkdownText(s) == w
  {
    ReplaceAllUnmarked(BoldUnderscore, w);
    ReplaceAllUnmarked(Italic, w);
    ReplaceAllUnmarked(ItalicUnderscore, w);
    ReplaceAllUnmarked(InlineCode, w);
    ReplaceAllUnmarked(Link, w);
    ReplaceAllUnmarked(Image, w);
    ReplaceAllUnmarked(Strike, w);
    ReplaceAllUnmarked(Escape, w);
    assert StripInlineMarkdown(s) == w;
    TrimOfTrimmed(w);
  }

  /** `` `w` `` cleans to `w`. */
  lemma CleanCode(w: string)
    requires Plain(w)
    ensures CleanMarkdownText("`" + w + "`") == w
  {
    var s := "`" + w + "`";
    var k := 1 + |w|;
    assert s[1..k] == w;
    SliceAvoids(s, 1, k, '`');
    StartsWithOne(s, 0, "`");
    StartsWithOne(s, k, "`");
    DelimitedRule(s, 0, "`", "`", k);
    WholeMatch(InlineCode, s, w);
    PlainAvoids(w);
    CodeAvoids(w, '*');
    CodeAvoids(w, '_');
    AfterCode(s, w);
  }

  lemma CodeAvoids(w: string, c: char)
    requires c !in w && c != '`'
    ensures c !in "`" + w + "`"
  {
  }

  lemma AfterCode(s: string, w: string)
    requires '*' !in s && '_' !in s
    requires ReplaceAll(InlineCode, s) == w && Plain(w)
    ensures CleanMarkdownText(s) == w
  {
    ReplaceAllWithout(Bold, s);
    ReplaceAllWithout(BoldUnderscore, s);
    ReplaceAllWithout(Italic, s);
    ReplaceAllWithout(ItalicUnderscore, s);
    ReplaceAllUnmarked(Link, w);
    ReplaceAllUnmarked(Image, w);
    ReplaceAllUnmarked(Strike, w);
    ReplaceAllUnmarked(Escape, w);
    assert StripInlineMarkdown(s) == w;
    TrimOfTrimmed(w);
  }

  /** The link rule runs first: `![w](u)` loses only its link syntax and cleans to `!w`. */
  lemma CleanImage(w: string, u: string)
    requires Plain(w) && ']' !in w && Url(u)
    ensures CleanMarkdownText("![" + w + "](" + u + ")") == "!" + w
  {
    var s := "![" + w + "](" + u + ")";
    var b := 2 + |w|;
    assert s[2..b] == w && s[b + 2..|s| - 1] == u;
    SliceAvoids(s, 2, b, ']');
    SliceAvoids(s, b + 2, |s| - 1, ')');
    LinkRule(s, 1, b);
    LinkAfterBang(s, w);
    PlainAvoids(w);
    ImageAvoids(w, u, '*');
    ImageAvoids(w, u, '_');
    ImageAvoids(w, u, '`');
    BangPlain(w);
    AfterLink(s, "!" + w);
  }

  /** A `!` followed by a link that runs to the end: the link rule keeps the `!` and replaces the rest by the link text. */
  lemma LinkAfterBang(s: string, w: string)
    requires 1 < |s| && s[0] == '!' && MatchRule(Link, s, 1) == Some(Hit(w, |s|))
    ensures ReplaceAll(Link, s) == "!" + w
  {
    assert ReplaceFrom(Link, s, |s|) == [];
    assert ReplaceFrom(Link, s, 1) == w;
    assert MatchRule(Link, s, 0).None?;
  }

  lemma ImageAvoids(w: string, u: string, c: char)
    requires c !in w && c !in u && c != '!' && c != '[' && c != ']' && c != '(' && c != ')'
    ensures c !in "![" + w + "](" + u + ")"
  {
  }

  lemma BangPlain(w: string)
    requires Plain(w)
    ensures Plain("!" + w)
  {
    var v := "!" + w;
    assert forall k :: 1 <= k < |v| ==> v[k] == w[k - 1];
  }

  /** The image rule at `i`: `![`, alt text `s[i + 2..b]` on one line without `]`, then `](`, a URL on one line without `)`, then the final `)`. */
  lemma ImageRule(s: string, i: nat, b: nat)
    requires i + 2 <= b && b + 3 < |s|
    requires s[i] == '!' && s[i + 1] == '[' && s[b] == ']' && s[b + 1] == '(' && s[|s| - 1] == ')'
    requires forall p :: i + 2 <= p < b ==> !IsLineTerminator(s[p]) && s[p] != ']'
    requires forall p :: b + 2 <= p < |s| - 1 ==> !IsLineTerminator(s[p]) && s[p] != ')'
    ensures MatchRule(Image, s, i) == Some(Hit([], |s|))
  {
    var e := |s| - 1;
    StartsWithTwo(s, b, "](");
    LazyUntilFirst(s, i + 2, i + 2, "](", b);
    StartsWithOne(s, e, ")");
    LazyUntilFirst(s, b + 2, b + 3, ")", e);
    BracketTailFirst(s, i + 2, i + 2, b, e);
  }

  /** The image rule deletes a whole image `![w](v)`. */
  lemma ImageWhole(w: string, v: string)
    requires ']' !in w && Url(v)
    requires forall k :: 0 <= k < |w| ==> !IsLineTerminator(w[k])
    ensures ReplaceAll(Image, "![" + w + "](" + v + ")") == []
  {
    var t := "![" + w + "](" + v + ")";
    var b := 2 + |w|;
    assert t[2..b] == w && t[b + 2..|t| - 1] == v;
    SliceAvoids(t, 2, b, ']');
    SliceAvoids(t, b + 2, |t| - 1, ')');
    ImageRule(t, 0, b);
    WholeMatch(Image, t, []);
  }

  /** In a linked image `[![w](u)](v)` the link rule matches at the start with `![w` as its text and `u` as its URL. */
  lemma LinkedImageMatch(w: string, u: string, v: string)
    requires Plain(w) && ']' !in w && Url(u)
    ensures MatchRule(Link, ("[![" + w + "](" + u + ")") + ("](" + v + ")"), 0) == Some(Hit("![" + w, 6 + |w| + |u|))
  {
    var s := ("[![" + w + "](" + u + ")") + ("](" + v + ")");
    var b := 3 + |w|;
    var e := b + 2 + |u|;
    assert s[1..b] == "![" + w && s[b + 2..e] == u;
    forall p | 1 <= p < b ensures !IsLineTerminator(s[p]) && s[p] != ']' {
      if p >= 3 {
        assert s[p] == w[p - 3];
      }
    }
    SliceAvoids(s, b + 2, e, ')');
    LinkRuleAt(s, 0, b, e);
  }

  /** A scan over a suffix without the rule's opening character copies that suffix. */
  lemma ReplaceFromSuffixWithout(rule: Rule, s: string, i: nat)
    requires i <= |s| && OpenChar(rule) !in s[i..]
    ensures ReplaceFrom(rule, s, i) == s[i..]
  {
    forall k | i <= k < |s| ensures s[k] != OpenChar(rule) {
      assert s[k] == s[i..][k - i];
    }
    ReplaceFromWithout(rule, s, i);
  }

  /** A scan that reaches a suffix without `[` copies that suffix. */
  lemma LinkTail(h: string, t: string)
    requires '[' !in t
    ensures ReplaceFrom(Link, h + t, |h|) == t
  {
    assert (h + t)[|h|..] == t;
    ReplaceFromSuffixWithout(Link, h + t, |h|);
  }

  /** A scan whose first match starts the text gives that match's replacement, then the scan after it. */
  lemma ReplaceFirst(rule: Rule, s: string, h: Hit, tail: string)
    requires 0 < |s| && MatchRule(rule, s, 0) == Some(h) && ReplaceFrom(rule, s, h.end) == tail
    ensures ReplaceAll(rule, s) == h.replacement + tail
  {
  }

  lemma TailAvoids(v: string)
    requires '[' !in v
    ensures '[' !in "](" + v + ")"
  {
  }

  /** In a linked image `[![w](u)](v)` the link rule leaves the image `![w](v)`. */
  lemma LinkedImageLink(w: string, u: string, v: string)
    requires Plain(w) && ']' !in w && Url(u) && '[' !in v
    ensures ReplaceAll(Link, ("[![" + w + "](" + u + ")") + ("](" + v + ")")) == "![" + w + "](" + v + ")"
  {
    var h, tail := "[![" + w + "](" + u + ")", "](" + v + ")";
    var m := Hit("![" + w, |h|);
    assert MatchRule(Link, h + tail, 0) == Some(m) by {
      LinkedImageMatch(w, u, v);
      assert |h| == 6 + |w| + |u|;
    }
    assert ReplaceFrom(Link, h + tail, |h|) == tail by {
      TailAvoids(v);
      LinkTail(h, tail);
    }
    ReplaceFirst(Link, h + tail, m, tail);
    assert ("![" + w) + tail == "![" + w + "](" + v + ")";
  }

  lemma LinkedImageAvoids(w: string, u: string, v: string, c: char)
    requires c !in w && c !in u && c !in v && c != '!' && c != '[' && c != ']' && c != '(' && c != ')'
    ensures c !in ("[![" + w + "](" + u + ")") + ("](" + v + ")")
  {
  }

  /** A linked image `[![w](u)](v)`, the badge form, cleans to nothing: the link rule leaves the image `![w](v)`, which the image rule deletes. */
  lemma CleanLinkedImage(w: string, u: string, v: string)
    requires Plain(w) && ']' !in w && Url(u) && Url(v) && '[' !in v
    ensures CleanMarkdownText("[![" + w + "](" + u + ")](" + v + ")") == []
  {
    var s := ("[![" + w + "](" + u + ")") + ("](" + v + ")");
    assert s == "[![" + w + "](" + u + ")](" + v + ")";
    PlainAvoids(w);
    LinkedImageAvoids(w, u, v, '*');
    LinkedImageAvoids(w, u, v, '_');
    LinkedImageAvoids(w, u, v, '`');
    NoEmphasisOrCode(s);
    LinkedImageLink(w, u, v);
    ImageWhole(w, v);
    assert ReplaceFrom(Strike, [], 0) == [] && ReplaceFrom(Escape, [], 0) == [];
    assert StripInlineMarkdown(s) == [];
  }

  /** A line with no line terminator after `j` runs to the end of the input. */
  lemma {:induction false} LineEndAtEnd(s: string, j: nat)
    requires j <= |s|
    requires forall k :: j <= k < |s| ==> !IsLineTerminator(s[k])
    ensures LineEnd(s, j) == |s|
    decreases |s| - j
  {
    if j < |s| {
      LineEndAtEnd(s, j + 1);
    }
  }

  /** `\s+` crosses a line break: `#` then a newline then a line of text is a level-one heading of that text. */
  lemma NewlineHeading(w: string)
    requires w != [] && !IsWhitespace(w[0])
    requires forall k :: 0 <= k < |w| ==> !IsLineTerminator(w[k])
    ensures MatchAt("#\n" + w, 0) == Some(HeadingMatch(0, 1, 2, 2 + |w|))
  {
    var s := "#\n" + w;
    assert s[0] == '#' && s[1] == '\n' && s[2] == w[0];
    assert HashCount(s, 0, 3) == 1;
    assert WhitespaceEnd(s, 1) == 2;
    assert forall k :: 2 <= k < |s| ==> s[k] == w[k - 2];
    LineEndAtEnd(s, 2);
  }
}
