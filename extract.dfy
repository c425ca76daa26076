/**
 * Lexical extraction of a file's imports and exports, as done with two
 * global regular expressions and `String.prototype.matchAll`:
 *
 *   imports: /import\s+(?:(?:\{[^}]+\}|\S+)\s+from\s+)?['"]([^'"]+)['"]/g, group 1
 *   exports: /export\s+(default\s+)?(?:function|class|const)\s+(\w+)/g,    group 2
 *
 * Each regex is written out as a scanner that decides, for one start
 * position, whether the regex matches there and what it captures.  Every
 * greedy run can succeed only at its longest extent, because whatever the
 * pattern needs next cannot be a character of the run's class (a non-space
 * character after `\s+`, a space after `\S+`, the `}` after `[^}]+`, a quote
 * after `[^'"]+`; `(\w+)` ends the pattern, so its longest run is accepted
 * first).  So the only backtracking left is over the alternatives, which
 * the scanners try in the regex's priority order: for imports the `{...}`
 * binding, then the `\S+` binding, then no binding at all; for exports the
 * `default` group, then none.
 */
module Extract {
  import opened Wrappers
  import opened Strings

  /** One regex match: where it starts, its captured group, and where it ends. */
  datatype Match = Match(start: nat, capture: string, end: nat)

  /** A captured group and the position just past the whole match. */
  datatype Capture = Capture(text: string, end: nat)

  /** What was extracted from one file. */
  datatype FileRecord = FileRecord(imports: seq<string>, exports: seq<string>)

  /** The two global regular expressions of the extractor. */
  datatype Pattern = ImportPattern | ExportPattern

  predicate IsQuote(c: char) {
    c == '\'' || c == '"'
  }

  /** The character classes the two regexes repeat: `\s`, `\S`, `[^'"]`, `[^}]` and `\w`. */
  datatype CharClass = Space | NonSpace | NotQuote | NotCloseBrace | Word

  predicate InClass(cl: CharClass, c: char) {
    match cl
    case Space => IsSpace(c)
    case NonSpace => IsNonSpace(c)
    case NotQuote => !IsQuote(c)
    case NotCloseBrace => c != '}'
    case Word => IsWordChar(c)
  }

  predicate LiteralAt(s: string, i: nat, lit: string) {
    i + |lit| <= |s| && s[i..i + |lit|] == lit
  }

  /** A literal found at `i` begins with the character at `i`. */
  lemma LiteralAtFirst(s: string, i: nat, lit: string)
    requires |lit| > 0 && LiteralAt(s, i, lit)
    ensures i < |s| && s[i] == lit[0]
  {
    assert s[i..i + |lit|][0] == s[i];
  }

  /** Every character of `s[i..j]` satisfies `p`. */
  ghost predicate AllIn(s: string, i: nat, j: nat, cl: CharClass)
    requires i <= j <= |s|
  {
    forall k :: i <= k < j ==> InClass(cl, s[k])
  }

  /** Where a greedy repetition of class `cl` starting at `i` stops: the end of the longest run of its characters. */
  function RunEnd(s: string, i: nat, cl: CharClass): (j: nat)
    requires i <= |s|
    ensures i <= j <= |s|
    ensures AllIn(s, i, j, cl)
    ensures j == |s| || !InClass(cl, s[j])
    decreases |s| - i
  {
    if i < |s| && InClass(cl, s[i]) then RunEnd(s, i + 1, cl) else i
  }

  /** A run that cannot be extended is the one `RunEnd` finds. */
  lemma RunEndIs(s: string, i: nat, cl: CharClass, j: nat)
    requires i <= j <= |s| && AllIn(s, i, j, cl)
    requires j == |s| || !InClass(cl, s[j])
    ensures RunEnd(s, i, cl) == j
  {
  }

  // ---------------------------------------------------------------- imports

  /** A capture that is a non-empty quote-free specifier standing between two quotes just before `c.end`. */
  ghost predicate QuotedBefore(s: string, c: Capture) {
    && |c.text| > 0
    && |c.text| + 2 <= c.end <= |s|
    && IsQuote(s[c.end - |c.text| - 2])
    && s[c.end - |c.text| - 1..c.end - 1] == c.text
    && IsQuote(s[c.end - 1])
    && (forall k :: 0 <= k < |c.text| ==> !IsQuote(c.text[k]))
  }

  /** `['"]([^'"]+)['"]` at `p`. */
  function QuotedAt(s: string, p: nat): Option<Capture>
    requires p <= |s|
  {
    if p < |s| && IsQuote(s[p]) then
      var e := RunEnd(s, p + 1, NotQuote);
      if p + 1 < e < |s| then
        Some(Capture(s[p + 1..e], e + 1))
      else None
    else None
  }

  /** `\s+from\s+['"]([^'"]+)['"]` at `p`. */
  function FromClauseAt(s: string, p: nat): Option<Capture>
    requires p <= |s|
  {
    var a := RunEnd(s, p, Space);
    if p < a && LiteralAt(s, a, "from") then
      var b := RunEnd(s, a + 4, Space);
      if a + 4 < b then QuotedAt(s, b) else None
    else None
  }

  /** The `\{[^}]+\}` alternative of the binding, followed by the `from` clause. */
  function BraceBindingAt(s: string, q: nat): Option<Capture>
    requires q <= |s|
  {
    if q < |s| && s[q] == '{' then
      var e := RunEnd(s, q + 1, NotCloseBrace);
      if q + 1 < e < |s| then FromClauseAt(s, e + 1) else None
    else None
  }

  /** The `\S+` alternative of the binding, followed by the `from` clause. */
  function NameBindingAt(s: string, q: nat): Option<Capture>
    requires q <= |s|
  {
    var t := RunEnd(s, q, NonSpace);
    if q < t then FromClauseAt(s, t) else None
  }

  /** Whether the import regex matches starting exactly at `i`, and what its group 1 captures. */
  function ImportAt(s: string, i: nat): Option<Match> {
    if !LiteralAt(s, i, "import") then None
    else
      var q := RunEnd(s, i + 6, Space);
      if q == i + 6 then None
      else
        match BindingAt(s, q)
        case None => None
        case Some(c) => Some(Match(i, c.text, c.end))
  }

  /** `(?:(?:\{[^}]+\}|\S+)\s+from\s+)?['"]([^'"]+)['"]` at `q`, its alternatives in priority order. */
  function BindingAt(s: string, q: nat): Option<Capture>
    requires q <= |s|
  {
    if BraceBindingAt(s, q).Some? then BraceBindingAt(s, q)
    else if NameBindingAt(s, q).Some? then NameBindingAt(s, q)
    else QuotedAt(s, q)
  }

  /** A quoted capture is a non-empty, quote-free specifier between quotes, ending the match. */
  lemma QuotedAtSound(s: string, p: nat)
    requires p <= |s|
    ensures QuotedAt(s, p).Some? ==> QuotedBefore(s, QuotedAt(s, p).value)
    ensures QuotedAt(s, p).Some? ==> QuotedAt(s, p).value.end == p + |QuotedAt(s, p).value.text| + 2
  {
  }

  lemma FromClauseAtSound(s: string, p: nat)
    requires p <= |s|
    ensures FromClauseAt(s, p).Some? ==> QuotedBefore(s, FromClauseAt(s, p).value) && p + 8 < FromClauseAt(s, p).value.end
  {
    var a := RunEnd(s, p, Space);
    if p < a && LiteralAt(s, a, "from") {
      var b := RunEnd(s, a + 4, Space);
      QuotedAtSound(s, b);
      if a + 4 < b {
        assert FromClauseAt(s, p) == QuotedAt(s, b);
      }
    }
  }

  lemma BraceBindingAtSound(s: string, q: nat)
    requires q <= |s|
    ensures BraceBindingAt(s, q).Some? ==> QuotedBefore(s, BraceBindingAt(s, q).value) && q < BraceBindingAt(s, q).value.end
  {
    if q < |s| && s[q] == '{' {
      var e := RunEnd(s, q + 1, NotCloseBrace);
      if q + 1 < e < |s| {
        assert BraceBindingAt(s, q) == FromClauseAt(s, e + 1);
        FromClauseAtSound(s, e + 1);
      }
    }
  }

  lemma NameBindingAtSound(s: string, q: nat)
    requires q <= |s|
    ensures NameBindingAt(s, q).Some? ==> QuotedBefore(s, NameBindingAt(s, q).value) && q < NameBindingAt(s, q).value.end
  {
    var t := RunEnd(s, q, NonSpace);
    if q < t {
      assert NameBindingAt(s, q) == FromClauseAt(s, t);
      FromClauseAtSound(s, t);
    }
  }

  /** Whichever alternative succeeds, the capture is a quoted specifier ending the match after `q`. */
  lemma BindingAtSound(s: string, q: nat)
    requires q <= |s|
    ensures BindingAt(s, q).Some? ==> QuotedBefore(s, BindingAt(s, q).value) && q < BindingAt(s, q).value.end
  {
    BraceBindingAtSound(s, q);
    NameBindingAtSound(s, q);
    QuotedAtSound(s, q);
  }

  /** A match of the import regex starts with `import` and whitespace, and captures a non-empty,
      quote-free specifier standing between two quotes at the very end of the match. */
  lemma ImportAtSound(s: string, i: nat)
    ensures ImportAt(s, i).Some? ==> ImportAt(s, i).value.start == i && i < ImportAt(s, i).value.end <= |s|
    ensures ImportAt(s, i).Some? ==> LiteralAt(s, i, "import") && i + 6 < |s| && IsSpace(s[i + 6])
    ensures ImportAt(s, i).Some? ==> QuotedBefore(s, Capture(ImportAt(s, i).value.capture, ImportAt(s, i).value.end))
  {
    if LiteralAt(s, i, "import") {
      var q := RunEnd(s, i + 6, Space);
      if q != i + 6 {
        BindingAtSound(s, q);
      }
    }
  }

  /** A quoted non-empty specifier at `b` is what `QuotedAt` captures. */
  lemma QuotedAtIs(s: string, b: nat, e: nat)
    requires b + 1 < e < |s|
    requires IsQuote(s[b]) && AllIn(s, b + 1, e, NotQuote) && IsQuote(s[e])
    ensures QuotedAt(s, b) == Some(Capture(s[b + 1..e], e + 1))
  {
    RunEndIs(s, b + 1, NotQuote, e);
  }

  /** Whitespace, `from`, whitespace and a quoted specifier at `p` is what `FromClauseAt` captures. */
  lemma FromClauseAtIs(s: string, p: nat, a: nat, b: nat, e: nat)
    requires p < a && a + 4 < b && b + 1 < e < |s|
    requires AllIn(s, p, a, Space) && LiteralAt(s, a, "from") && AllIn(s, a + 4, b, Space)
    requires IsQuote(s[b]) && AllIn(s, b + 1, e, NotQuote) && IsQuote(s[e])
    ensures FromClauseAt(s, p) == Some(Capture(s[b + 1..e], e + 1))
  {
    assert !IsSpace(s[a]) by { assert s[a] == "from"[0]; }
    RunEndIs(s, p, Space, a);
    RunEndIs(s, a + 4, Space, b);
    assert FromClauseAt(s, p) == QuotedAt(s, b);
    QuotedAtIs(s, b, e);
  }

  /** A bare `import 'x'` (whitespace, then a quoted non-empty specifier) always yields a match. */
  lemma ImportBareMatches(s: string, i: nat, q: nat, e: nat)
    requires i + 6 < q && q + 1 < e < |s|
    requires LiteralAt(s, i, "import") && AllIn(s, i + 6, q, Space)
    requires IsQuote(s[q]) && AllIn(s, q + 1, e, NotQuote) && IsQuote(s[e])
    ensures ImportAt(s, i).Some?
  {
    RunEndIs(s, i + 6, Space, q);
    QuotedAtIs(s, q, e);
    assert BindingAt(s, q).Some?;
  }

  /** `import Name from 'x'`: a binding word, whitespace, `from`, whitespace, a quoted specifier; the
      match captures exactly that specifier.  The word may start with `{` when the braced alternative
      fails there, as in `import {a}b from 'x'`. */
  lemma ImportNameBindingMatches(s: string, i: nat, q: nat, t: nat, a: nat, b: nat, e: nat)
    requires i + 6 < q < t < a && a + 4 < b && b + 1 < e < |s|
    requires LiteralAt(s, i, "import") && AllIn(s, i + 6, q, Space)
    requires (s[q] != '{' || BraceBindingAt(s, q).None?) && AllIn(s, q, t, NonSpace)
    requires AllIn(s, t, a, Space) && LiteralAt(s, a, "from") && AllIn(s, a + 4, b, Space)
    requires IsQuote(s[b]) && AllIn(s, b + 1, e, NotQuote) && IsQuote(s[e])
    ensures ImportAt(s, i) == Some(Match(i, s[b + 1..e], e + 1))
  {
    var c := Capture(s[b + 1..e], e + 1);
    assert BraceBindingAt(s, q) == None;
    RunEndIs(s, q, NonSpace, t);
    FromClauseAtIs(s, t, a, b, e);
    assert NameBindingAt(s, q) == Some(c);
    assert BindingAt(s, q) == Some(c);
    ImportAtFromParts(s, i, q, c);
    assert Match(i, c.text, c.end) == Match(i, s[b + 1..e], e + 1);
  }

  /** How `ImportAt` combines its alternatives once the whitespace after `import` is known to end at `q`. */
  lemma ImportAtFromParts(s: string, i: nat, q: nat, c: Capture)
    requires i + 6 < q < |s| && LiteralAt(s, i, "import") && AllIn(s, i + 6, q, Space) && !IsSpace(s[q])
    requires BindingAt(s, q) == Some(c)
    ensures ImportAt(s, i) == Some(Match(i, c.text, c.end))
  {
    RunEndIs(s, i + 6, Space, q);
  }

  /** `import { a, b } from 'x'`: a braced binding, whitespace, `from`, whitespace, a quoted specifier;
      the match captures exactly that specifier. */
  lemma ImportBraceBindingMatches(s: string, i: nat, q: nat, c: nat, a: nat, b: nat, e: nat)
    requires i + 6 < q && q + 1 < c && c + 1 < a && a + 4 < b && b + 1 < e < |s|
    requires LiteralAt(s, i, "import") && AllIn(s, i + 6, q, Space)
    requires s[q] == '{' && AllIn(s, q + 1, c, NotCloseBrace) && s[c] == '}'
    requires AllIn(s, c + 1, a, Space) && LiteralAt(s, a, "from") && AllIn(s, a + 4, b, Space)
    requires IsQuote(s[b]) && AllIn(s, b + 1, e, NotQuote) && IsQuote(s[e])
    ensures ImportAt(s, i) == Some(Match(i, s[b + 1..e], e + 1))
  {
    var r := Capture(s[b + 1..e], e + 1);
    BraceBindingCaptures(s, q, c, a, b, e);
    ImportAtFromParts(s, i, q, r);
    assert Match(i, r.text, r.end) == Match(i, s[b + 1..e], e + 1);
  }

  /** The braced alternative wins whenever it applies, capturing the quoted specifier after `from`. */
  lemma BraceBindingCaptures(s: string, q: nat, c: nat, a: nat, b: nat, e: nat)
    requires q + 1 < c && c + 1 < a && a + 4 < b && b + 1 < e < |s|
    requires s[q] == '{' && AllIn(s, q + 1, c, NotCloseBrace) && s[c] == '}'
    requires AllIn(s, c + 1, a, Space) && LiteralAt(s, a, "from") && AllIn(s, a + 4, b, Space)
    requires IsQuote(s[b]) && AllIn(s, b + 1, e, NotQuote) && IsQuote(s[e])
    ensures BindingAt(s, q) == Some(Capture(s[b + 1..e], e + 1))
  {
    var r := Capture(s[b + 1..e], e + 1);
    FromClauseAtIs(s, c + 1, a, b, e);
    BraceBindingAtIs(s, q, c, r);
    assert BindingAt(s, q) == BraceBindingAt(s, q);
  }

  /** A braced binding closing at `c`, followed by a `from` clause, is what `BraceBindingAt` captures. */
  lemma BraceBindingAtIs(s: string, q: nat, c: nat, r: Capture)
    requires q + 1 < c < |s|
    requires s[q] == '{' && AllIn(s, q + 1, c, NotCloseBrace) && s[c] == '}'
    requires FromClauseAt(s, c + 1) == Some(r)
    ensures BraceBindingAt(s, q) == Some(r)
  {
    RunEndIs(s, q + 1, NotCloseBrace, c);
    BraceBindingAtStep(s, q, c);
  }

  /** A braced binding that closes at `c` leaves the rest to the `from` clause after the brace. */
  lemma BraceBindingAtStep(s: string, q: nat, c: nat)
    requires q + 1 < c < |s| && s[q] == '{' && RunEnd(s, q + 1, NotCloseBrace) == c
    ensures BraceBindingAt(s, q) == FromClauseAt(s, c + 1)
  {
  }

  // ---------------------------------------------------------------- exports

  const Keywords: seq<string> := ["function", "class", "const"]

  /** `(?:function|class|const)` at `a`: the position after the keyword. */
  function KeywordEnd(s: string, a: nat): Option<nat> {
    if LiteralAt(s, a, "function") then Some(a + 8)
    else if LiteralAt(s, a, "class") then Some(a + 5)
    else if LiteralAt(s, a, "const") then Some(a + 5)
    else None
  }

  /** `(?:function|class|const)\s+(\w+)` at `a`; the name is the longest run of word characters. */
  function DeclarationAt(s: string, a: nat): Option<Capture> {
    match KeywordEnd(s, a)
    case None => None
    case Some(b) =>
      var c := RunEnd(s, b, Space);
      if c == b then None
      else
        var w := RunEnd(s, c, Word);
        if w == c then None else Some(Capture(s[c..w], w))
  }

  /** `(default\s+)?` at `q`: where the keyword must start.  When `default` is present but not
      followed by whitespace the group cannot be skipped either, since the keyword would then have
      to start at the `d` of `default`. */
  function KeywordStart(s: string, q: nat): Option<nat>
    requires q <= |s|
  {
    if LiteralAt(s, q, "default") then
      var d := RunEnd(s, q + 7, Space);
      if d == q + 7 then None else Some(d)
    else Some(q)
  }

  /** Whether the export regex matches starting exactly at `i`, and what its group 2 captures. */
  function ExportAt(s: string, i: nat): Option<Match> {
    if !LiteralAt(s, i, "export") then None
    else
      var q := RunEnd(s, i + 6, Space);
      if q == i + 6 then None
      else
        match KeywordStart(s, q)
        case None => None
        case Some(a) =>
          match DeclarationAt(s, a)
          case None => None
          case Some(c) => Some(Match(i, c.text, c.end))
  }

  lemma KeywordEndSound(s: string, a: nat)
    ensures KeywordEnd(s, a).Some? ==> exists kw :: kw in Keywords && LiteralAt(s, a, kw) && KeywordEnd(s, a).value == a + |kw|
  {
    if LiteralAt(s, a, "function") {
      assert "function" in Keywords;
    } else if LiteralAt(s, a, "class") {
      assert "class" in Keywords;
    } else if LiteralAt(s, a, "const") {
      assert "const" in Keywords;
    }
  }

  /** A declaration is a keyword, whitespace and a maximal non-empty run of word characters, which
      is the name captured.  `DeclarationAtKeyword` names the keyword. */
  lemma DeclarationAtSound(s: string, a: nat)
    ensures DeclarationAt(s, a).Some? ==>
      var r := DeclarationAt(s, a).value;
      && a + |r.text| < r.end <= |s| && |r.text| > 0
      && r.text == s[r.end - |r.text|..r.end]
      && AllIn(s, r.end - |r.text|, r.end, Word)
      && (r.end == |s| || !IsWordChar(s[r.end]))
      && a < r.end - |r.text| && IsSpace(s[r.end - |r.text| - 1])
      && (forall k :: 0 <= k < |r.text| ==> IsWordChar(r.text[k]))
  {
    KeywordEndSound(s, a);
    if DeclarationAt(s, a).Some? {
      var r := DeclarationAt(s, a).value;
      var start := r.end - |r.text|;
      forall k | 0 <= k < |r.text|
        ensures IsWordChar(r.text[k])
      {
        assert r.text[k] == s[start + k];
      }
    }
  }

  /** A declaration starts with one of the keywords, followed by whitespace up to the name. */
  lemma DeclarationAtKeyword(s: string, a: nat) returns (kw: string)
    requires DeclarationAt(s, a).Some?
    ensures
      var r := DeclarationAt(s, a).value;
      && kw in Keywords && LiteralAt(s, a, kw) && a + |kw| < r.end - |r.text| <= |s|
      && AllIn(s, a + |kw|, r.end - |r.text|, Space)
  {
    KeywordEndSound(s, a);
    kw :| kw in Keywords && LiteralAt(s, a, kw) && KeywordEnd(s, a).value == a + |kw|;
    var b := a + |kw|;
    var c := RunEnd(s, b, Space);
    var w := RunEnd(s, c, Word);
    assert DeclarationAt(s, a) == Some(Capture(s[c..w], w));
  }

  /** A match of the export regex starts with `export` and whitespace, and captures a non-empty run
      of word characters that ends the match and cannot be extended. */
  lemma ExportAtSound(s: string, i: nat)
    ensures ExportAt(s, i).Some? ==> ExportAt(s, i).value.start == i && i < ExportAt(s, i).value.end <= |s|
    ensures ExportAt(s, i).Some? ==> LiteralAt(s, i, "export") && i + 6 < |s| && IsSpace(s[i + 6])
    ensures ExportAt(s, i).Some? ==>
      var r := ExportAt(s, i).value;
      && i + |r.capture| < r.end
      && |r.capture| > 0 && r.capture == s[r.end - |r.capture|..r.end]
      && (forall k :: 0 <= k < |r.capture| ==> IsWordChar(r.capture[k]))
      && (r.end == |s| || !IsWordChar(s[r.end]))
  {
    if LiteralAt(s, i, "export") {
      var q := RunEnd(s, i + 6, Space);
      if q != i + 6 && KeywordStart(s, q).Some? {
        var a := KeywordStart(s, q).value;
        DeclarationAtSound(s, a);
        if DeclarationAt(s, a).Some? {
          ExportAtFromParts(s, i, q, a);
        }
      }
    }
  }

  /** Every export match has the regex's shape, with the captured name as its last piece: the
      converse of `ExportShapeMatches`.  Returns where the pieces before the name begin. */
  lemma ExportAtHasShape(s: string, i: nat) returns (q: nat, a: nat, kw: string)
    requires ExportAt(s, i).Some?
    ensures
      var r := ExportAt(s, i).value;
      && ExportShape(s, i, q, a, kw, r.end - |r.capture|, r.end)
      && r.capture == s[r.end - |r.capture|..r.end]
  {
    q := RunEnd(s, i + 6, Space);
    a := KeywordStart(s, q).value;
    KeywordStartSound(s, q);
    DeclarationAtSound(s, a);
    kw := DeclarationAtKeyword(s, a);
    ExportAtFromParts(s, i, q, a);
    var d := DeclarationAt(s, a).value;
    assert ExportAt(s, i).value == Match(i, d.text, d.end);
    assert ExportShape(s, i, q, a, kw, d.end - |d.text|, d.end);
  }

  /** `(default\s+)?` either is skipped or is `default` followed by whitespace up to the keyword. */
  lemma KeywordStartSound(s: string, q: nat)
    requires q <= |s|
    ensures KeywordStart(s, q).Some? ==>
      var a := KeywordStart(s, q).value;
      q <= a <= |s| && (a == q || (LiteralAt(s, q, "default") && q + 7 < a && AllIn(s, q + 7, a, Space)))
  {
  }

  /** The strings the export regex accepts at `i`, with the positions where its pieces begin:
      `export`, whitespace up to `q`, optionally `default` and whitespace up to `a`, the keyword `kw`,
      whitespace up to `c`, and word characters up to `w`. */
  ghost predicate ExportShape(s: string, i: nat, q: nat, a: nat, kw: string, c: nat, w: nat) {
    && LiteralAt(s, i, "export") && i + 6 < q <= a && kw in Keywords && a + |kw| < c < w <= |s|
    && AllIn(s, i + 6, q, Space)
    && (a == q || (LiteralAt(s, q, "default") && q + 7 < a && AllIn(s, q + 7, a, Space)))
    && LiteralAt(s, a, kw)
    && AllIn(s, a + |kw|, c, Space)
    && AllIn(s, c, w, Word)
  }

  /** Whatever the export regex accepts at `i`, the scanner matches there, capturing the whole name. */
  lemma ExportShapeMatches(s: string, i: nat, q: nat, a: nat, kw: string, c: nat, w: nat)
    requires ExportShape(s, i, q, a, kw, c, w)
    ensures ExportAt(s, i) == Some(Match(i, s[c..RunEnd(s, c, Word)], RunEnd(s, c, Word)))
  {
    LiteralAtFirst(s, a, kw);
    if a == q {
      assert !IsSpace(s[q]);
    } else {
      LiteralAtFirst(s, q, "default");
      assert !IsSpace(s[q]);
    }
    RunEndIs(s, i + 6, Space, q);
    KeywordStartIs(s, q, a);
    DeclarationAtIs(s, a, kw, a + |kw|, c, w);
    ExportAtFromParts(s, i, q, a);
  }

  /** The optional `default` group, given where the keyword (whose first letter is `f` or `c`) starts. */
  lemma KeywordStartIs(s: string, q: nat, a: nat)
    requires q <= a < |s| && (s[a] == 'f' || s[a] == 'c')
    requires a == q || (LiteralAt(s, q, "default") && q + 7 < a && AllIn(s, q + 7, a, Space))
    ensures KeywordStart(s, q) == Some(a)
  {
    if a != q {
      assert !IsSpace(s[a]);
      RunEndIs(s, q + 7, Space, a);
    }
  }

  /** A keyword, whitespace and word characters at `a` form the declaration `DeclarationAt` finds. */
  lemma DeclarationAtIs(s: string, a: nat, kw: string, b: nat, c: nat, w: nat)
    requires a < b < c < w <= |s|
    requires kw in Keywords && LiteralAt(s, a, kw) && b == a + |kw|
    requires AllIn(s, b, c, Space) && AllIn(s, c, w, Word)
    ensures DeclarationAt(s, a) == Some(Capture(s[c..RunEnd(s, c, Word)], RunEnd(s, c, Word)))
  {
    KeywordEndIs(s, a, kw);
    assert !IsSpace(s[c]);
    RunEndIs(s, b, Space, c);
  }

  /** Each keyword is recognised as itself: none of the three is a prefix of another. */
  lemma KeywordEndIs(s: string, a: nat, kw: string)
    requires kw in Keywords && LiteralAt(s, a, kw)
    ensures KeywordEnd(s, a) == Some(a + |kw|)
  {
    var t := s[a..a + |kw|];
    if kw != "function" {
      assert t[0] == s[a] == 'c';
    }
    if kw == "const" {
      assert t[2] == s[a + 2] == 'n';
    }
  }

  /** How `ExportAt` combines its pieces once the whitespace after `export` is known to end at `q` and
      the keyword to start at `a`. */
  lemma ExportAtFromParts(s: string, i: nat, q: nat, a: nat)
    requires i + 6 < q <= |s| && LiteralAt(s, i, "export") && RunEnd(s, i + 6, Space) == q
    requires KeywordStart(s, q) == Some(a) && DeclarationAt(s, a).Some?
    ensures ExportAt(s, i) == Some(Match(i, DeclarationAt(s, a).value.text, DeclarationAt(s, a).value.end))
  {
  }

  // ---------------------------------------------------------------- matchAll

  /** Whether the given pattern matches starting exactly at `i`. */
  function MatchAt(pat: Pattern, s: string, i: nat): Option<Match> {
    match pat
    case ImportPattern => ImportAt(s, i)
    case ExportPattern => ExportAt(s, i)
  }

  /** The outcome of trying the pattern at each start position of `s`, in order. */
  function Attempts(pat: Pattern, s: string): (t: seq<Option<Match>>)
    ensures |t| == |s| && forall q :: 0 <= q < |s| ==> t[q] == MatchAt(pat, s, q)
  {
    seq(|s|, q requires 0 <= q < |s| => MatchAt(pat, s, q))
  }

  /** Each attempt that succeeds starts where it was tried and ends after it, within the text. */
  ghost predicate WellFormed(t: seq<Option<Match>>) {
    forall q :: 0 <= q < |t| && t[q].Some? ==> t[q].value.start == q && q < t[q].value.end <= |t|
  }

  /** Position `q` lies inside one of the matches `ms` (from its start up to, not including, its end). */
  ghost predicate Consumed(ms: seq<Match>, q: nat) {
    exists k :: 0 <= k < |ms| && ms[k].start <= q < ms[k].end
  }

  /** `matchAll` with a global regex, the search resuming at `p`, over the attempts `t` at each
      position: the leftmost match, then the leftmost match from where it ended, and so on.  The
      results are successful attempts and come in source order without overlapping. */
  function MatchAll(t: seq<Option<Match>>, p: nat): (r: seq<Match>)
    requires WellFormed(t) && p <= |t|
    ensures forall k :: 0 <= k < |r| ==> p <= r[k].start < |t| && t[r[k].start] == Some(r[k])
    ensures forall k :: 0 < k < |r| ==> r[k - 1].end <= r[k].start
    decreases |t| - p
  {
    if p == |t| then []
    else if t[p].None? then MatchAll(t, p + 1)
    else [t[p].value] + MatchAll(t, t[p].value.end)
  }

  /** No match is missed: every position from `p` on where an attempt succeeds lies within one of
      the matches `MatchAll` returns (it is either one of their starts or stepped over by one). */
  lemma {:induction false} MatchAllLeftmost(t: seq<Option<Match>>, p: nat)
    requires WellFormed(t) && p <= |t|
    ensures forall q :: p <= q < |t| && t[q].Some? ==> Consumed(MatchAll(t, p), q)
    decreases |t| - p
  {
    if p < |t| {
      var r := MatchAll(t, p);
      if t[p].None? {
        MatchAllLeftmost(t, p + 1);
      } else {
        var m := t[p].value;
        var rest := MatchAll(t, m.end);
        MatchAllLeftmost(t, m.end);
        assert r == [m] + rest;
        forall q | p <= q < |t| && t[q].Some? ensures Consumed(r, q) {
          if q < m.end {
            assert r[0].start <= q < r[0].end;
          } else {
            var k :| 0 <= k < |rest| && rest[k].start <= q < rest[k].end;
            assert r[k + 1] == rest[k];
          }
        }
      }
    }
  }

  /** The attempts of a pattern over a text are well formed. */
  lemma AttemptsWellFormed(pat: Pattern, s: string)
    ensures WellFormed(Attempts(pat, s))
  {
    forall q | 0 <= q < |s|
      ensures MatchAt(pat, s, q).Some? ==> MatchAt(pat, s, q).value.start == q && q < MatchAt(pat, s, q).value.end <= |s|
    {
      ImportAtSound(s, q);
      ExportAtSound(s, q);
    }
  }

  /** All matches of a pattern in a text, in source order. */
  function MatchesOf(pat: Pattern, s: string): (r: seq<Match>)
    ensures forall k :: 0 <= k < |r| ==> MatchAt(pat, s, r[k].start) == Some(r[k])
    ensures forall k :: 0 < k < |r| ==> r[k - 1].end <= r[k].start
  {
    AttemptsWellFormed(pat, s);
    MatchAll(Attempts(pat, s), 0)
  }

  /** The captured groups of a list of matches, in order. */
  function Captures(ms: seq<Match>): (r: seq<string>)
    ensures |r| == |ms| && forall k :: 0 <= k < |ms| ==> r[k] == ms[k].capture
  {
    seq(|ms|, k requires 0 <= k < |ms| => ms[k].capture)
  }

  /** Every match of the import regex captures a non-empty, quote-free specifier. */
  lemma ImportCapturesQuoteFree(content: string)
    ensures forall k :: 0 <= k < |MatchesOf(ImportPattern, content)| ==>
      |MatchesOf(ImportPattern, content)[k].capture| > 0
      && forall j :: 0 <= j < |MatchesOf(ImportPattern, content)[k].capture| ==> !IsQuote(MatchesOf(ImportPattern, content)[k].capture[j])
  {
    var ms := MatchesOf(ImportPattern, content);
    forall k | 0 <= k < |ms|
      ensures |ms[k].capture| > 0 && forall j :: 0 <= j < |ms[k].capture| ==> !IsQuote(ms[k].capture[j])
    {
      ImportAtSound(content, ms[k].start);
    }
  }

  /** Every match of the export regex captures a non-empty run of word characters. */
  lemma ExportCapturesWords(content: string)
    ensures forall k :: 0 <= k < |MatchesOf(ExportPattern, content)| ==>
      |MatchesOf(ExportPattern, content)[k].capture| > 0
      && forall j :: 0 <= j < |MatchesOf(ExportPattern, content)[k].capture| ==> IsWordChar(MatchesOf(ExportPattern, content)[k].capture[j])
  {
    var ms := MatchesOf(ExportPattern, content);
    forall k | 0 <= k < |ms|
      ensures |ms[k].capture| > 0 && forall j :: 0 <= j < |ms[k].capture| ==> IsWordChar(ms[k].capture[j])
    {
      ExportAtSound(content, ms[k].start);
    }
  }

  /** The import specifiers of a file, in source order with duplicates kept; each is non-empty and quote-free. */
  function Imports(content: string): (r: seq<string>)
    ensures forall k :: 0 <= k < |r| ==> |r[k]| > 0
    ensures forall k :: 0 <= k < |r| ==> forall j :: 0 <= j < |r[k]| ==> !IsQuote(r[k][j])
  {
    ImportCapturesQuoteFree(content);
    Captures(MatchesOf(ImportPattern, content))
  }

  /** The exported names of a file, in source order; each is a non-empty run of word characters. */
  function Exports(content: string): (r: seq<string>)
    ensures forall k :: 0 <= k < |r| ==> |r[k]| > 0
    ensures forall k :: 0 <= k < |r| ==> forall j :: 0 <= j < |r[k]| ==> IsWordChar(r[k][j])
  {
    ExportCapturesWords(content);
    Captures(MatchesOf(ExportPattern, content))
  }

  function ExtractRecord(content: string): FileRecord {
    FileRecord(Imports(content), Exports(content))
  }
}
