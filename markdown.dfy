/** The custom `marked` renderer of markdown.js: GitHub-style heading
    anchors, the pass-through code renderer, and the `highlight` hook that
    retries a failed snippet once as plain text. */
module Markdown {
  import opened Results
  import opened JsValues
  import opened Paths

  // -----------------------------------------------------------------------
  // The heading id

  /** `\w` of a JavaScript regular expression without the `u` flag. */
  predicate IsWordChar(c: char)
  {
    'a' <= c <= 'z' || 'A' <= c <= 'Z' || '0' <= c <= '9' || c == '_'
  }

  /** The class `[\.|\#]`: a dot, a bar or a hash. */
  predicate IsMark(c: char)
  {
    c == '.' || c == '|' || c == '#'
  }

  /** The characters an id is made of: `[a-z0-9_-]`. */
  predicate IsIdChar(c: char)
  {
    'a' <= c <= 'z' || '0' <= c <= '9' || c == '_' || c == '-'
  }

  /** Step 1, `replace(/[\.|\#]/g, '')`: every mark is deleted. */
  function DropMarks(s: string): string
  {
    if s == [] then []
    else (if IsMark(s[0]) then [] else [s[0]]) + DropMarks(s[1..])
  }

  /** The length of the run of non-word characters that opens `s`. */
  function RunLength(s: string): (n: nat)
    ensures n <= |s|
    ensures forall i :: 0 <= i < n ==> !IsWordChar(s[i])
    ensures n < |s| ==> IsWordChar(s[n])
  {
    if s == [] || IsWordChar(s[0]) then 0 else 1 + RunLength(s[1..])
  }

  /** Step 2, `replace(/[^\w]+/g, '-')`: each maximal run of non-word
      characters becomes one '-'. */
  function Collapse(s: string): string
    decreases |s|
  {
    if s == [] then []
    else if IsWordChar(s[0]) then [s[0]] + Collapse(s[1..])
    else "-" + Collapse(s[RunLength(s)..])
  }

  /** After step 2 only word characters and single '-' remain, and the
      result opens as `s` does. */
  lemma {:induction false} CollapseShape(s: string)
    ensures var r := Collapse(s);
      (forall i :: 0 <= i < |r| ==> IsWordChar(r[i]) || r[i] == '-') &&
      NoDoubleDash(r) &&
      (s == [] <==> r == []) &&
      (s != [] && IsWordChar(s[0]) ==> r[0] == s[0]) &&
      (s != [] && !IsWordChar(s[0]) ==> r[0] == '-')
    decreases |s|
  {
    if s != [] {
      var tail := if IsWordChar(s[0]) then s[1..] else s[RunLength(s)..];
      CollapseShape(tail);
      var head := if IsWordChar(s[0]) then [s[0]] else "-";
      var r := Collapse(s);
      assert r == head + Collapse(tail);
      assert forall i :: 1 <= i < |r| ==> r[i] == Collapse(tail)[i - 1];
      if !IsWordChar(s[0]) {
        assert tail != [] ==> IsWordChar(tail[0]);
      }
    }
  }

  predicate NoDoubleDash(r: string)
  {
    forall i :: 0 <= i < |r| - 1 ==> !(r[i] == '-' && r[i + 1] == '-')
  }

  /** Step 3, `replace(/[\-]+$/, '')`: the trailing run of '-' is removed. */
  function TrimDashes(s: string): string
  {
    if s != [] && s[|s| - 1] == '-' then TrimDashes(s[..|s| - 1]) else s
  }

  /** Step 3 keeps a prefix, removes only '-', and leaves no '-' at the end. */
  lemma {:induction false} TrimDashesShape(s: string)
    ensures var r := TrimDashes(s);
      |r| <= |s| && r == s[..|r|] &&
      (r == [] || r[|r| - 1] != '-') &&
      (forall i :: |r| <= i < |s| ==> s[i] == '-')
  {
    if s != [] && s[|s| - 1] == '-' {
      TrimDashesShape(s[..|s| - 1]);
      assert s[..|s| - 1][..|TrimDashes(s)|] == s[..|TrimDashes(s)|];
    }
  }

  function LowerChar(c: char): char
  {
    if 'A' <= c <= 'Z' then (c as int + 32) as char else c
  }

  /** Step 4, `toLowerCase()`, on the ASCII characters that remain after
      step 2. */
  function Lower(s: string): string
  {
    seq(|s|, i requires 0 <= i < |s| => LowerChar(s[i]))
  }

  /** The id `renderer.heading` derives from the heading text. */
  function Slug(text: string): string
  {
    Lower(TrimDashes(Collapse(DropMarks(text))))
  }

  /** The shape of every id: only `[a-z0-9_-]`, never two '-' in a row, and
      no '-' at the end. */
  predicate WellFormedId(r: string)
  {
    (forall i :: 0 <= i < |r| ==> IsIdChar(r[i])) &&
    NoDoubleDash(r) &&
    (r == [] || r[|r| - 1] != '-')
  }

  lemma SlugShape(text: string)
    ensures WellFormedId(Slug(text))
  {
    var c := Collapse(DropMarks(text));
    var t := TrimDashes(c);
    CollapseShape(DropMarks(text));
    TrimDashesShape(c);
    assert forall i :: 0 <= i < |t| ==> t[i] == c[i];
    assert forall i :: 0 <= i < |t| ==> (LowerChar(t[i]) == '-' <==> t[i] == '-');
  }

  /** The word characters of `s`, in order. */
  function Words(s: string): (r: string)
    ensures forall i :: 0 <= i < |r| ==> IsWordChar(r[i])
  {
    if s == [] then []
    else (if IsWordChar(s[0]) then [s[0]] else []) + Words(s[1..])
  }

  lemma {:induction false} WordsConcat(a: string, b: string)
    ensures Words(a + b) == Words(a) + Words(b)
  {
    if a == [] {
      assert a + b == b;
    } else {
      assert (a + b)[0] == a[0] && (a + b)[1..] == a[1..] + b;
      WordsConcat(a[1..], b);
      var h := if IsWordChar(a[0]) then [a[0]] else [];
      assert Words(a + b) == h + Words(a[1..] + b);
      assert h + (Words(a[1..]) + Words(b)) == (h + Words(a[1..])) + Words(b);
    }
  }

  lemma {:induction false} WordsNone(s: string)
    requires forall i :: 0 <= i < |s| ==> !IsWordChar(s[i])
    ensures Words(s) == []
  {
    if s != [] {
      WordsNone(s[1..]);
    }
  }

  lemma {:induction false} WordsOfDropMarks(s: string)
    ensures Words(DropMarks(s)) == Words(s)
  {
    if s != [] {
      WordsOfDropMarks(s[1..]);
      WordsConcat(if IsMark(s[0]) then [] else [s[0]], DropMarks(s[1..]));
    }
  }

  lemma {:induction false} WordsOfCollapse(s: string)
    ensures Words(Collapse(s)) == Words(s)
    decreases |s|
  {
    if s != [] {
      if IsWordChar(s[0]) {
        WordsOfCollapse(s[1..]);
        WordsConcat([s[0]], Collapse(s[1..]));
      } else {
        var n := RunLength(s);
        WordsOfCollapse(s[n..]);
        WordsConcat("-", Collapse(s[n..]));
        assert s == s[..n] + s[n..];
        WordsConcat(s[..n], s[n..]);
        WordsNone(s[..n]);
        WordsNone("-");
      }
    }
  }

  lemma {:induction false} WordsOfTrimDashes(s: string)
    ensures Words(TrimDashes(s)) == Words(s)
  {
    var t := TrimDashes(s);
    TrimDashesShape(s);
    assert s == t + s[|t|..];
    WordsConcat(t, s[|t|..]);
    WordsNone(s[|t|..]);
  }

  lemma {:induction false} WordsOfLower(s: string)
    ensures Words(Lower(s)) == Lower(Words(s))
  {
    if s != [] {
      WordsOfLower(s[1..]);
      assert Lower(s) == [LowerChar(s[0])] + Lower(s[1..]);
      assert Lower(s[1..]) == Lower(s)[1..];
      var head := if IsWordChar(s[0]) then [s[0]] else [];
      assert Lower(head + Words(s[1..])) == Lower(head) + Lower(Words(s[1..]));
    }
  }

  /** The id keeps exactly the word characters of the text, in order and
      lowercased: everything else is either deleted or a separating '-'. */
  lemma SlugKeepsWords(text: string)
    ensures Words(Slug(text)) == Lower(Words(text))
  {
    var d := DropMarks(text);
    var c := Collapse(d);
    WordsOfDropMarks(text);
    WordsOfCollapse(d);
    WordsOfTrimDashes(c);
    WordsOfLower(TrimDashes(c));
  }

  lemma {:induction false} DropMarksConcat(a: string, b: string)
    ensures DropMarks(a + b) == DropMarks(a) + DropMarks(b)
  {
    if a == [] {
      assert a + b == b;
    } else {
      assert (a + b)[0] == a[0] && (a + b)[1..] == a[1..] + b;
      DropMarksConcat(a[1..], b);
      var h := if IsMark(a[0]) then [] else [a[0]];
      assert DropMarks(a + b) == h + DropMarks(a[1..] + b);
      assert h + (DropMarks(a[1..]) + DropMarks(b)) == (h + DropMarks(a[1..])) + DropMarks(b);
    }
  }

  /** A dot, bar or hash anywhere in the text does not change the id: it is
      deleted rather than turned into a '-'. */
  lemma SlugIgnoresMark(x: string, c: char, y: string)
    requires IsMark(c)
    ensures Slug(x + [c] + y) == Slug(x + y)
  {
    assert DropMarks([c]) == [] by {
      assert [c][1..] == [];
    }
    DropMarksConcat(x + [c], y);
    DropMarksConcat(x, [c]);
    DropMarksConcat(x, y);
    assert DropMarks(x + [c]) == DropMarks(x);
  }

  lemma {:induction false} DropMarksKeeps(r: string)
    requires forall i :: 0 <= i < |r| ==> !IsMark(r[i])
    ensures DropMarks(r) == r
  {
    if r != [] {
      DropMarksKeeps(r[1..]);
    }
  }

  lemma {:induction false} CollapseKeeps(r: string)
    requires forall i :: 0 <= i < |r| ==> IsWordChar(r[i]) || r[i] == '-'
    requires NoDoubleDash(r)
    ensures Collapse(r) == r
    decreases |r|
  {
    if r != [] {
      if !IsWordChar(r[0]) {
        assert |r| > 1 ==> r[1] != '-';
        assert RunLength(r) == 1;
      }
      assert NoDoubleDash(r[1..]) by {
        forall i | 0 <= i < |r[1..]| - 1
          ensures !(r[1..][i] == '-' && r[1..][i + 1] == '-')
        {
          assert r[1..][i] == r[i + 1] && r[1..][i + 1] == r[i + 2];
        }
      }
      CollapseKeeps(r[1..]);
    }
  }

  /** An id is its own id. */
  lemma SlugFixes(r: string)
    requires WellFormedId(r)
    ensures Slug(r) == r
  {
    DropMarksKeeps(r);
    CollapseKeeps(r);
    assert TrimDashes(r) == r;
    assert Lower(r) == r;
  }

  /** Slugifying an id changes nothing. */
  lemma SlugIdempotent(text: string)
    ensures Slug(Slug(text)) == Slug(text)
  {
    SlugShape(text);
    SlugFixes(Slug(text));
  }

  /** A mark between two word characters vanishes. */
  lemma SlugOfMarkBetween(u: char, c: char, v: char)
    requires IsWordChar(u) && IsMark(c) && IsWordChar(v)
    ensures Slug([u, c, v]) == [LowerChar(u), LowerChar(v)]
  {
    assert [u, c, v][1..] == [c, v] && [c, v][1..] == [v] && [v][1..] == [];
    assert DropMarks([v]) == [v];
    assert DropMarks([c, v]) == [v];
    assert DropMarks([u, c, v]) == [u, v];
    assert [u, v][1..] == [v];
    assert Collapse([v]) == [v];
    assert Collapse([u, v]) == [u, v];
    assert TrimDashes([u, v]) == [u, v];
  }

  /** Any other non-word character between two word characters becomes a
      single '-'. */
  lemma SlugOfGapBetween(u: char, w: char, v: char)
    requires IsWordChar(u) && !IsWordChar(w) && !IsMark(w) && IsWordChar(v)
    ensures Slug([u, w, v]) == [LowerChar(u), '-', LowerChar(v)]
  {
    assert [u, w, v][1..] == [w, v] && [w, v][1..] == [v] && [v][1..] == [];
    assert DropMarks([v]) == [v];
    assert DropMarks([w, v]) == [w, v];
    assert DropMarks([u, w, v]) == [u, w, v];
    assert RunLength([v]) == 0;
    assert RunLength([w, v]) == 1;
    assert Collapse([v]) == [v];
    assert Collapse([w, v]) == ['-', v];
    assert Collapse([u, w, v]) == [u, '-', v];
    assert TrimDashes([u, '-', v]) == [u, '-', v];
  }

  /** A dot is deleted while a space separates: "a.b" gives "ab" and
      "a b" gives "a-b". */
  lemma SlugExamples()
    ensures Slug("a.b") == "ab"
    ensures Slug("a b") == "a-b"
  {
    SlugOfMarkBetween('a', '.', 'b');
    SlugOfGapBetween('a', ' ', 'b');
  }

  // -----------------------------------------------------------------------
  // The heading markup

  function Digit(d: nat): char
    requires d < 10
  {
    ('0' as int + d) as char
  }

  predicate IsDigit(c: char)
  {
    '0' <= c <= '9'
  }

  /** `String(n)` for a natural number. */
  function DecimalString(n: nat): (s: string)
    ensures |s| >= 1
    ensures forall i :: 0 <= i < |s| ==> IsDigit(s[i])
  {
    if n < 10 then [Digit(n)] else DecimalString(n / 10) + [Digit(n % 10)]
  }

  /** The number a string of digits denotes. */
  function DecimalValue(s: string): nat
    requires forall i :: 0 <= i < |s| ==> IsDigit(s[i])
  {
    if s == [] then 0
    else
      assert IsDigit(s[|s| - 1]);
      DecimalValue(s[..|s| - 1]) * 10 + (s[|s| - 1] as int - '0' as int)
  }

  lemma {:induction false} DecimalRoundTrip(n: nat)
    ensures DecimalValue(DecimalString(n)) == n
  {
    if n >= 10 {
      var s := DecimalString(n);
      assert s[..|s| - 1] == DecimalString(n / 10);
      DecimalRoundTrip(n / 10);
    }
  }

  /** Different numbers print differently. */
  lemma DecimalInjective(m: nat, n: nat)
    requires m != n
    ensures DecimalString(m) != DecimalString(n)
  {
    DecimalRoundTrip(m);
    DecimalRoundTrip(n);
  }

  const NameOpen: string := "<a name=\""
  const HrefOpen: string := "\" class=\"anchor\" href=\"#"
  const AnchorClose: string := "\"></a>"

  /** `renderer.heading(text, depth)`: the pieces `<h`, the depth, `>`,
      the empty anchor carrying the id in its `name` and in its `href`, the
      text, `</h`, the depth and `>`, joined, then a line break. */
  function Heading(text: string, depth: nat): string
  {
    var d := DecimalString(depth);
    var id := Slug(text);
    "<h" + (d + (">" + (NameOpen + (id + (HrefOpen + (id + (AnchorClose + (text + ("</h" + (d + (">" + "\n")))))))))))
  }

  /** The parts a heading element is read back into. */
  datatype HeadingParts = HeadingParts(depth: nat, name: string, href: string, text: string)

  /** The index of the first `c` in `s`, or `|s|`. */
  function Until(s: string, c: char): (i: nat)
    ensures i <= |s|
    ensures forall j :: 0 <= j < i ==> s[j] != c
    ensures i < |s| ==> s[i] == c
  {
    if s == [] || s[0] == c then 0 else 1 + Until(s[1..], c)
  }

  /** Reads `<hD><a name="N" class="anchor" href="#H"></a>T</hD>\n` back
      into D, N, H and T, or None when `h` does not have that form. */
  function ParseHeading(h: string): Option<HeadingParts>
  {
    if !StartsWith(h, "<h") then None else ParseDepth(h[2..])
  }

  /** From the depth on: the digits up to '>'. */
  function ParseDepth(r: string): Option<HeadingParts>
  {
    var n := Until(r, '>');
    if n == |r| || !Digits(r[..n]) then None
    else ParseName(r[..n], r[n + 1..])
  }

  /** From the anchor on: the `name` attribute up to its closing quote. */
  function ParseName(d: string, r: string): Option<HeadingParts>
    requires Digits(d)
  {
    if !StartsWith(r, NameOpen) then None else
    var rest := r[|NameOpen|..];
    var m := Until(rest, '"');
    ParseHref(d, rest[..m], rest[m..])
  }

  /** From the closing quote of `name` on: the `href` fragment. */
  function ParseHref(d: string, name: string, r: string): Option<HeadingParts>
    requires Digits(d)
  {
    if !StartsWith(r, HrefOpen) then None else
    var rest := r[|HrefOpen|..];
    var q := Until(rest, '"');
    ParseText(d, name, rest[..q], rest[q..])
  }

  /** From the closing quote of `href` on: the text up to the closing tag of
      the same depth. */
  function ParseText(d: string, name: string, href: string, r: string): Option<HeadingParts>
    requires Digits(d)
  {
    if !StartsWith(r, AnchorClose) then None else
    var rest := r[|AnchorClose|..];
    var close := "</h" + (d + (">" + "\n"));
    if !EndsWith(rest, close) then None
    else Some(HeadingParts(DecimalValue(d), name, href, rest[..|rest| - |close|]))
  }

  lemma UntilStops(a: string, b: string, c: char)
    requires forall i :: 0 <= i < |a| ==> a[i] != c
    requires b != [] && b[0] == c
    ensures Until(a + b, c) == |a|
  {
    assert (a + b)[|a|] == c;
    assert forall j :: 0 <= j < |a| ==> (a + b)[j] == a[j];
  }

  predicate Digits(d: string)
  {
    d != [] && forall i :: 0 <= i < |d| ==> IsDigit(d[i])
  }

  predicate NoQuote(s: string)
  {
    forall i :: 0 <= i < |s| ==> s[i] != '"'
  }

  lemma ParseDepthStep(d: string, rest: string)
    requires Digits(d)
    ensures ParseDepth(d + (">" + rest)) == ParseName(d, rest)
  {
    var r := d + (">" + rest);
    UntilStops(d, ">" + rest, '>');
    assert forall i :: 0 <= i < |d| ==> r[i] == d[i];
    assert r[..|d|] == d && r[|d| + 1..] == rest;
  }

  lemma ParseNameStep(d: string, id: string, rest: string)
    requires Digits(d) && NoQuote(id) && rest != [] && rest[0] == '"'
    ensures ParseName(d, NameOpen + (id + rest)) == ParseHref(d, id, rest)
  {
    var r := NameOpen + (id + rest);
    assert r[..|NameOpen|] == NameOpen && r[|NameOpen|..] == id + rest;
    UntilStops(id, rest, '"');
    assert (id + rest)[..|id|] == id && (id + rest)[|id|..] == rest;
  }

  lemma ParseHrefStep(d: string, name: string, id: string, rest: string)
    requires Digits(d) && NoQuote(id) && rest != [] && rest[0] == '"'
    ensures ParseHref(d, name, HrefOpen + (id + rest)) == ParseText(d, name, id, rest)
  {
    var r := HrefOpen + (id + rest);
    assert r[..|HrefOpen|] == HrefOpen && r[|HrefOpen|..] == id + rest;
    UntilStops(id, rest, '"');
    assert (id + rest)[..|id|] == id && (id + rest)[|id|..] == rest;
  }

  lemma ParseTextStep(d: string, name: string, href: string, text: string)
    requires Digits(d)
    ensures ParseText(d, name, href, AnchorClose + (text + ("</h" + (d + (">" + "\n"))))) ==
      Some(HeadingParts(DecimalValue(d), name, href, text))
  {
    var close := "</h" + (d + (">" + "\n"));
    var r := AnchorClose + (text + close);
    assert r[..|AnchorClose|] == AnchorClose && r[|AnchorClose|..] == text + close;
    var rest := text + close;
    assert rest[|rest| - |close|..] == close;
    assert rest[..|rest| - |close|] == text;
  }

  /** The heading element reads back into its depth, the same id in both
      attributes, and the text. */
  lemma HeadingRoundTrip(text: string, depth: nat)
    ensures ParseHeading(Heading(text, depth)) == Some(HeadingParts(depth, Slug(text), Slug(text), text))
  {
    var d := DecimalString(depth);
    var id := Slug(text);
    SlugShape(text);
    DecimalRoundTrip(depth);
    var t7 := AnchorClose + (text + ("</h" + (d + (">" + "\n"))));
    var t5 := HrefOpen + (id + t7);
    var t3 := NameOpen + (id + t5);
    var t1 := d + (">" + t3);
    ParseTextStep(d, id, id, text);
    ParseHrefStep(d, id, id, t7);
    ParseNameStep(d, id, t5);
    ParseDepthStep(d, t3);
    assert Heading(text, depth)[..2] == "<h" && Heading(text, depth)[2..] == t1;
  }

  // -----------------------------------------------------------------------
  // Code blocks

  /** `renderer.code(code, lang, escaped)`: the highlighted markup is
      already final, so the code is emitted as it is. */
  function RenderCode(code: string, lang: Option<string>, escaped: bool): (r: string)
    ensures r == code
  {
    code
  }

  // -----------------------------------------------------------------------
  // Highlighting

  /** One call of pygmentize: the language asked for and the snippet number
      its line anchors are prefixed with. */
  datatype Attempt = Attempt(lang: string, snippet: nat)

  /** `lang || 'text'`. */
  function LangOrText(lang: Option<string>): string
  {
    if lang.Some? && lang.value != "" then lang.value else "text"
  }

  /** The options object passed to pygmentize for an attempt. */
  function Request(a: Attempt): Object
  {
    map[
      "lang" := Str(a.lang),
      "format" := Str("html"),
      "options" := Obj(map[
        "linenos" := Str("table"),
        "lineanchors" := Str("snippet-" + DecimalString(a.snippet)),
        "anchorlinenos" := Bool(true),
        "cssclass" := Str("snippet")])]
  }

  /** What one `highlight` call amounts to: its outcome, the counter it
      leaves, and the attempts it made in order. */
  datatype Run = Run(result: Result<string>, id: nat, attempts: seq<Attempt>)

  /** `highlight(code, lang)` with the counter at `id`, pygmentize being
      `pyg`: each attempt first increments the counter; a failure is retried
      as 'text' unless `lang` already is 'text'. */
  function HighlightRun(code: string, lang: Option<string>, id: nat, pyg: (Object, string) -> Result<string>): Run
    decreases if lang == Some("text") then 0 else 1
  {
    var a := Attempt(LangOrText(lang), id + 1);
    var out := pyg(Request(a), code);
    if out.Ok? then Run(out, id + 1, [a])
    else if lang != Some("text") then
      var retry := HighlightRun(code, Some("text"), id + 1, pyg);
      Run(retry.result, retry.id, [a] + retry.attempts)
    else Run(out, id + 1, [a])
  }

  /** At most two attempts, the second one in 'text' and made exactly when
      the first fails and the language was not 'text'; each attempt takes
      the next counter value; the outcome is that of the last attempt. */
  lemma HighlightAttempts(code: string, lang: Option<string>, id: nat, pyg: (Object, string) -> Result<string>)
    ensures var run := HighlightRun(code, lang, id, pyg);
      var n := |run.attempts|;
      1 <= n <= 2 &&
      run.id == id + n &&
      (forall i :: 0 <= i < n ==> run.attempts[i].snippet == id + i + 1) &&
      run.attempts[0].lang == LangOrText(lang) &&
      (n == 2 <==> pyg(Request(run.attempts[0]), code).Fail? && lang != Some("text")) &&
      (n == 2 ==> run.attempts[1].lang == "text") &&
      run.result == pyg(Request(run.attempts[n - 1]), code)
  {
    var a := Attempt(LangOrText(lang), id + 1);
    if pyg(Request(a), code).Fail? && lang != Some("text") {
      var b := Attempt("text", id + 2);
      assert HighlightRun(code, Some("text"), id + 1, pyg) == Run(pyg(Request(b), code), id + 2, [b]);
    }
  }

  /** Without a language, or with an empty one, a failing snippet is tried
      twice, both times as 'text'. */
  lemma HighlightTextTwice(code: string, lang: Option<string>, id: nat, pyg: (Object, string) -> Result<string>)
    requires lang == None || lang == Some("")
    requires pyg(Request(Attempt("text", id + 1)), code).Fail?
    ensures HighlightRun(code, lang, id, pyg).attempts == [Attempt("text", id + 1), Attempt("text", id + 2)]
  {
    HighlightAttempts(code, lang, id, pyg);
  }

  /** The closure state of one `markdown(content, fn)` call: the snippet
      counter, and (ghost) the pygmentize attempts made so far. */
  class Snippets {
    var id: nat
    ghost var attempts: seq<Attempt>

    /** Attempt k (from 0) used snippet number k + 1. */
    ghost predicate Valid()
      reads this
    {
      id == |attempts| &&
      forall k :: 0 <= k < |attempts| ==> attempts[k].snippet == k + 1
    }

    /** `var id = 0` at the start of `markdown`. */
    constructor ()
      ensures Valid() && id == 0 && attempts == []
    {
      id := 0;
      attempts := [];
    }

    /** `highlight(code, lang, fn)`; the result is what reaches `fn`. */
    method Highlight(code: string, lang: Option<string>, pyg: (Object, string) -> Result<string>) returns (r: Result<string>)
      requires Valid()
      modifies this
      ensures Valid()
      ensures var run := HighlightRun(code, lang, old(id), pyg);
        r == run.result && id == run.id && attempts == old(attempts) + run.attempts
      decreases if lang == Some("text") then 0 else 1
    {
      id := id + 1;
      var a := Attempt(LangOrText(lang), id);
      attempts := attempts + [a];
      var out := pyg(Request(a), code);
      if out.Fail? {
        if lang != Some("text") {
          r := Highlight(code, Some("text"), pyg);
          return;
        }
        return Fail(out.error);
      }
      return Ok(out.value);
    }

    /** Every attempt of one rendering has its own line-anchor prefix. */
    lemma AnchorsDistinct(j: nat, k: nat)
      requires Valid()
      requires j < k < |attempts|
      ensures Request(attempts[j])["options"].fields["lineanchors"] !=
        Request(attempts[k])["options"].fields["lineanchors"]
    {
      DecimalInjective(attempts[j].snippet, attempts[k].snippet);
      var oj := Request(attempts[j])["options"].fields["lineanchors"];
      var ok := Request(attempts[k])["options"].fields["lineanchors"];
      assert oj.s[..8] == "snippet-" && ok.s[..8] == "snippet-";
      assert oj.s[8..] == DecimalString(attempts[j].snippet);
      assert ok.s[8..] == DecimalString(attempts[k].snippet);
    }
  }
}
