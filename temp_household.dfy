/** The earlier household controller (`src/controllers/temp.js`): find the
    newest household mail, check recipient and age, then return its HTML
    with boiler-plate removed and the main button appended. */
module TempHousehold {
  import opened Wrappers
  import opened Seqs
  import opened Text
  import opened Mail

  /** The two subjects the search names. */
  const HouseholdSubject: string := "Important: How to update your Netflix household"
  const TemporaryCodeSubject: string := "Your Netflix temporary access code"

  /** The search, written out as one literal with the two subjects. */
  const Query: string :=
    "subject:\"" + HouseholdSubject + "\" OR subject:\"" + TemporaryCodeSubject + "\""

  /** The literal search is the `OR` of the two subject clauses the other
      controllers build from their lists. */
  lemma QueryIsSubjectQuery()
    ensures Query == SubjectQuery([HouseholdSubject, TemporaryCodeSubject])
  {
    var cs := SubjectClauses([HouseholdSubject, TemporaryCodeSubject]);
    assert cs[1..] == [cs[1]];
    assert Join(cs, " OR ") == cs[0] + " OR " + cs[1];
    assert "\"" + " OR " + "subject:\"" == "\" OR subject:\"";
  }

  // ----------------------------------------------------- regular expressions

  /** One element of an unwanted-content pattern. `new RegExp(content, "gi")`
      reads each listed string as a regular expression; the metacharacters
      that occur in the list are `.` (any character but a line terminator)
      and `?` (the character before it is optional). */
  datatype Atom = Exactly(c: char) | AnyChar | Optional(c: char)

  /** The regular expression a listed string denotes. */
  function Compile(t: string): (r: seq<Atom>)
    ensures |r| <= |t|
    ensures t != [] ==> r != []
    ensures Plain(t) ==> r == Literal(t)
    decreases |t|
  {
    if t == [] then []
    else if |t| >= 2 && t[1] == '?' then [Optional(t[0])] + Compile(t[2..])
    else if t[0] == '.' then [AnyChar] + Compile(t[1..])
    else
      assert Plain(t) ==> Plain(t[1..]) by {
        assert forall k :: 0 <= k < |t| - 1 ==> t[1..][k] == t[k + 1];
      }
      LiteralCons(t);
      [Exactly(t[0])] + Compile(t[1..])
  }

  /** One character against one pattern character under the `i` flag. */
  predicate SameIgnoringCase(a: char, b: char) {
    LowerAscii(a) == LowerAscii(b)
  }

  /** Where `atoms` (case-insensitively) matched at `i` ends, with the
      backtracking order of the regular-expression engine: an optional
      character is taken when the rest then matches, and skipped otherwise. */
  function AtomsEnd(atoms: seq<Atom>, s: string, i: nat): (r: Option<nat>)
    requires i <= |s|
    ensures r.Some? ==> i <= r.value <= |s|
    ensures r.Some? && (exists k :: 0 <= k < |atoms| && !atoms[k].Optional?) ==> i < r.value
    decreases |atoms|
  {
    if atoms == [] then Some(i)
    else
      var rest := atoms[1..];
      assert forall k :: 1 <= k < |atoms| ==> atoms[k] == rest[k - 1];
      match atoms[0]
      case Exactly(c) =>
        if i < |s| && SameIgnoringCase(s[i], c) then AtomsEnd(rest, s, i + 1) else None
      case AnyChar =>
        if i < |s| && !IsLineTerminator(s[i]) then AtomsEnd(rest, s, i + 1) else None
      case Optional(c) =>
        var taken := if i < |s| && SameIgnoringCase(s[i], c) then AtomsEnd(rest, s, i + 1) else None;
        if taken.Some? then taken else AtomsEnd(rest, s, i)
  }

  /** A listed string read verbatim, each character standing for itself:
      the reading the list evidently intends. */
  function Literal(t: string): (r: seq<Atom>)
    ensures |r| == |t| && forall k :: 0 <= k < |t| ==> r[k] == Exactly(t[k])
  {
    seq(|t|, k requires 0 <= k < |t| => Exactly(t[k]))
  }

  lemma LiteralCons(a: string)
    requires a != []
    ensures Literal(a) == [Exactly(a[0])] + Literal(a[1..])
  {
    assert forall k :: 1 <= k < |a| ==> a[1..][k - 1] == a[k];
  }

  /** `t` holds neither of the metacharacters the list uses. */
  predicate Plain(t: string) {
    forall k :: 0 <= k < |t| ==> t[k] != '.' && t[k] != '?'
  }

  /** An ordinary first character not followed by `?` stands for itself. */
  lemma CompileHead(a: string, x: string)
    requires a != [] && a[0] != '.'
    requires a[1..] + x == [] || (a[1..] + x)[0] != '?'
    ensures Compile(a + x) == [Exactly(a[0])] + Compile(a[1..] + x)
  {
    assert (a + x)[1..] == a[1..] + x;
  }

  /** The facts about `a[1..]` the induction step needs. */
  lemma PlainTail(a: string, x: string)
    requires a != [] && Plain(a) && (x == [] || x[0] != '?')
    ensures Plain(a[1..])
    ensures a[1..] + x == [] || (a[1..] + x)[0] != '?'
  {
    var tail := a[1..];
    forall k | 0 <= k < |tail| ensures tail[k] != '.' && tail[k] != '?' {
      assert tail[k] == a[k + 1];
    }
    if tail != [] { assert (tail + x)[0] == a[1]; } else { assert tail + x == x; }
  }

  lemma ConsAppend(e: Atom, t: seq<Atom>, c: seq<Atom>)
    ensures [e] + (t + c) == ([e] + t) + c
  {
  }

  /** A plain prefix compiles to itself. */
  lemma {:induction false} CompilePlainPrefix(a: string, x: string)
    requires Plain(a) && (x == [] || x[0] != '?')
    ensures Compile(a + x) == Literal(a) + Compile(x)
    decreases |a|
  {
    if a == [] {
      assert a + x == x;
    } else {
      PlainTail(a, x);
      CompileHead(a, x);
      CompilePlainPrefix(a[1..], x);
      LiteralCons(a);
      ConsAppend(Exactly(a[0]), Literal(a[1..]), Compile(x));
    }
  }

  /** `FoldPrefixAt` character by character. */
  lemma FoldPrefixAtPointwise(s: string, i: nat, p: string)
    requires i + |p| <= |s|
    ensures FoldPrefixAt(s, i, p) <==>
              forall k :: 0 <= k < |p| ==> SameIgnoringCase(s[i + k], p[k])
  {
    var l, r := ToLowerAscii(s[i..i + |p|]), ToLowerAscii(p);
    if forall k :: 0 <= k < |p| ==> SameIgnoringCase(s[i + k], p[k]) {
      assert forall k :: 0 <= k < |p| ==> l[k] == r[k];
    }
    if FoldPrefixAt(s, i, p) {
      forall k | 0 <= k < |p| ensures SameIgnoringCase(s[i + k], p[k]) {
        assert l[k] == r[k];
      }
    }
  }

  /** Literal atoms match where the string occurs up to ASCII case, and
      the rest of the pattern continues after it. */
  lemma {:induction false} LiteralThen(a: string, rest: seq<Atom>, s: string, i: nat)
    requires i <= |s|
    ensures AtomsEnd(Literal(a) + rest, s, i) ==
              if FoldPrefixAt(s, i, a) then AtomsEnd(rest, s, i + |a|) else None
    decreases |a|
  {
    if a == [] {
      assert Literal(a) + rest == rest;
      assert FoldPrefixAt(s, i, a);
    } else {
      var tail := a[1..];
      var atoms := Literal(a) + rest;
      LiteralCons(a);
      assert atoms == [Exactly(a[0])] + (Literal(tail) + rest);
      ExactlyStep(a[0], Literal(tail) + rest, s, i);
      FoldPrefixStep(s, i, a);
      if i < |s| && SameIgnoringCase(s[i], a[0]) {
        LiteralThen(tail, rest, s, i + 1);
      }
    }
  }

  /** An exact character, then the rest of the pattern. */
  lemma ExactlyStep(c: char, rest: seq<Atom>, s: string, i: nat)
    requires i <= |s|
    ensures AtomsEnd([Exactly(c)] + rest, s, i) ==
              if i < |s| && SameIgnoringCase(s[i], c) then AtomsEnd(rest, s, i + 1) else None
  {
    assert ([Exactly(c)] + rest)[1..] == rest;
  }

  /** `FoldPrefixAt` one character at a time. */
  lemma FoldPrefixStep(s: string, i: nat, a: string)
    requires a != [] && i <= |s|
    ensures FoldPrefixAt(s, i, a) <==>
              i < |s| && SameIgnoringCase(s[i], a[0]) && FoldPrefixAt(s, i + 1, a[1..])
  {
    if i + |a| <= |s| {
      FoldPrefixAtPointwise(s, i, a);
      FoldPrefixAtPointwise(s, i + 1, a[1..]);
      assert (forall k :: 0 <= k < |a| ==> SameIgnoringCase(s[i + k], a[k])) <==>
             SameIgnoringCase(s[i], a[0]) &&
             forall k :: 0 <= k < |a| - 1 ==> SameIgnoringCase(s[i + 1 + k], a[1..][k]);
    }
  }

  /** The corrected reading matches exactly where the listed string occurs,
      ignoring ASCII case. */
  lemma LiteralMatchesOccurrence(t: string, s: string, i: nat)
    requires i <= |s|
    ensures AtomsEnd(Literal(t), s, i) == if FoldPrefixAt(s, i, t) then Some(i + |t|) else None
  {
    LiteralThen(t, [], s, i);
    assert Literal(t) + [] == Literal(t);
  }

  /** As written: a listed string `a` + `c?` + `b` is read with `c`
      optional, so the pattern fails at that very text, since neither
      taking nor skipping `c` lines `b` up with what follows. */
  lemma UnescapedOptionalMissesItself(a: string, c: char, b: string, pre: string, post: string)
    requires Plain(a) && Plain(b) && c != '?'
    requires b != [] && !SameIgnoringCase(b[0], c) && b[0] != '?'
    ensures AtomsEnd(Compile(a + [c, '?'] + b), pre + (a + [c, '?'] + b) + post, |pre|) == None
  {
    var t := a + [c, '?'] + b;
    var s := pre + t + post;
    var rest := [Optional(c)] + Literal(b);
    CompileWithOptional(a, c, b);
    var p := |pre| + |a|;
    assert s[|pre|..p] == a;
    FoldPrefixAtPointwise(s, |pre|, a);
    LiteralThen(a, rest, s, |pre|);
    assert s[p] == c && s[p + 1] == '?';
    OptionalThenMismatch(c, b, s, p);
  }

  /** As written, a listed `a` + `c?` + `b` compiles to `a`, an optional `c`, then `b`. */
  lemma CompileWithOptional(a: string, c: char, b: string)
    requires Plain(a) && Plain(b) && c != '?'
    ensures Compile(a + [c, '?'] + b) == Literal(a) + ([Optional(c)] + Literal(b))
  {
    var x := [c, '?'] + b;
    assert a + [c, '?'] + b == a + x;
    CompilePlainPrefix(a, x);
    assert x[2..] == b;
    CompilePlainPrefix(b, []);
    assert b + [] == b;
  }

  /** A listed `a` + `.` + `b` compiles to `a`, any one character, then `b`. */
  lemma CompileWithAny(a: string, b: string)
    requires Plain(a) && Plain(b)
    ensures Compile(a + ['.'] + b) == Literal(a) + ([AnyChar] + Literal(b))
  {
    var x := ['.'] + b;
    assert a + ['.'] + b == a + x;
    CompilePlainPrefix(a, x);
    assert x[1..] == b;
    assert |x| >= 2 ==> x[1] == b[0];
  }

  /** An optional `c` then `b` fails where the text reads `c?`, when `b`
      starts with neither `c` nor `?`. */
  lemma OptionalThenMismatch(c: char, b: string, s: string, p: nat)
    requires p + 1 < |s| && s[p] == c && s[p + 1] == '?'
    requires b != [] && !SameIgnoringCase(b[0], c) && b[0] != '?'
    ensures AtomsEnd([Optional(c)] + Literal(b), s, p) == None
  {
    assert ([Optional(c)] + Literal(b))[1..] == Literal(b) + [];
    assert Literal(b) + [] == Literal(b);
    LiteralThen(b, [], s, p + 1);
    LiteralThen(b, [], s, p);
    FoldPrefixStep(s, p, b);
    FoldPrefixStep(s, p + 1, b);
    assert LowerAscii('?') == '?';
  }

  /** The line the list means to remove, and the reading it is given. */
  const QuestionsLine: string := "Questions? Visit the Help Center"

  /** As written, the pattern built from the help-centre line never
      matches the line itself. */
  lemma QuestionsLineIsNotMatched(pre: string, post: string)
    ensures AtomsEnd(Compile(QuestionsLine), pre + QuestionsLine + post, |pre|) == None
  {
    assert QuestionsLine == "Question" + ['s', '?'] + " Visit the Help Center";
    UnescapedOptionalMissesItself("Question", 's', " Visit the Help Center", pre, post);
  }

  /** The end of `.*?close` from `from`: the first occurrence of `close`,
      provided no line terminator comes before it. */
  function LazyUntil(s: string, from: nat, close: string): (r: Option<nat>)
    ensures r.Some? ==> from <= r.value && PrefixAt(s, r.value, close)
    ensures r.Some? ==> forall k :: from <= k < r.value ==> !IsLineTerminator(s[k])
    ensures r.Some? ==> forall k :: from <= k < r.value ==> !PrefixAt(s, k, close)
    ensures r.None? <==>
              || NextOccurrence(s, close, from).None?
              || exists k :: from <= k < NextOccurrence(s, close, from).value && IsLineTerminator(s[k])
  {
    match NextOccurrence(s, close, from)
    case None => None
    case Some(u) =>
      if forall k :: from <= k < u ==> !IsLineTerminator(s[k]) then Some(u) else None
  }

  /** `LazyUntil` stops at `u` when `close` first occurs there and the line
      does not end before it. */
  lemma LazyUntilIs(s: string, from: nat, close: string, u: nat)
    requires from <= u && PrefixAt(s, u, close)
    requires forall k :: from <= k < u ==> !PrefixAt(s, k, close) && !IsLineTerminator(s[k])
    ensures LazyUntil(s, from, close) == Some(u)
  {
    NextOccurrenceIs(s, close, from, u);
  }

  /** The three kinds of pattern the controller deletes. */
  datatype Pattern =
    | Unwanted(atoms: seq<Atom>)   // `new RegExp(content, "gi")`
    | Salutation                   // `/Hi\s+[^,]+,\s*/g`
    | Paragraph                    // `/<p[^>]*>.*?<\/p>/g`

  /** Where `p` matched at `i` ends. For the salutation: `Hi`, a white-space
      character, and a first comma at least two characters later (so that
      `\s+` and `[^,]+` both get one), then the white space after the comma.
      For a paragraph: `<p`, the first `>`, then the first `</p>` on the
      same line. */
  function MatchEnd(p: Pattern, s: string, i: nat): (r: Option<nat>)
    requires i <= |s|
    ensures r.Some? ==> i <= r.value <= |s|
  {
    match p
    case Unwanted(atoms) => AtomsEnd(atoms, s, i)
    case Salutation =>
      if PrefixAt(s, i, "Hi") && i + 2 < |s| && IsJsSpace(s[i + 2]) then
        match NextIndexOf(s, ',', i + 3)
        case Some(c) => if c >= i + 4 then Some(SpaceRunEnd(s, c + 1)) else None
        case None => None
      else None
    case Paragraph =>
      if PrefixAt(s, i, "<p") then
        match NextIndexOf(s, '>', i + 2)
        case None => None
        case Some(g) =>
          match LazyUntil(s, g + 1, "</p>")
          case None => None
          case Some(u) => Some(u + 4)
      else None
  }

  /** `s.replace(p, "")` with the `g` flag, scanning from `i`: a non-empty
      match is dropped and the scan resumes after it; otherwise the
      character is kept. */
  function ReplaceFrom(s: string, p: Pattern, i: nat): (r: string)
    requires i <= |s|
    ensures |r| <= |s| - i
    decreases |s| - i
  {
    if i == |s| then []
    else
      match MatchEnd(p, s, i)
      case Some(e) =>
        if e > i then ReplaceFrom(s, p, e) else [s[i]] + ReplaceFrom(s, p, i + 1)
      case None => [s[i]] + ReplaceFrom(s, p, i + 1)
  }

  function ReplaceAll(s: string, p: Pattern): (r: string)
    ensures |r| <= |s|
  {
    ReplaceFrom(s, p, 0)
  }

  /** Where no non-empty match starts, nothing is removed. */
  lemma {:induction false} ReplaceFromNoMatch(s: string, p: Pattern, i: nat)
    requires i <= |s|
    requires forall k :: i <= k < |s| ==> MatchEnd(p, s, k).None? || MatchEnd(p, s, k) == Some(k)
    ensures ReplaceFrom(s, p, i) == s[i..]
    decreases |s| - i
  {
    if i < |s| {
      ReplaceFromNoMatch(s, p, i + 1);
      assert s[i..] == [s[i]] + s[i + 1..];
    }
  }

  /** A match at `i` is removed whole: the scan continues after it. */
  lemma ReplaceFromDropsMatch(s: string, p: Pattern, i: nat, e: nat)
    requires i < e <= |s| && MatchEnd(p, s, i) == Some(e)
    ensures ReplaceFrom(s, p, i) == ReplaceFrom(s, p, e)
  {
  }

  lemma ReplaceAllNoMatch(s: string, p: Pattern)
    requires forall k :: 0 <= k < |s| ==> MatchEnd(p, s, k).None? || MatchEnd(p, s, k) == Some(k)
    ensures ReplaceAll(s, p) == s
  {
    ReplaceFromNoMatch(s, p, 0);
  }

  /** Nothing after `e` starts with `x` when the text from `e` on does not
      include it. */
  lemma NothingStartsAfter(s: string, e: nat, x: string)
    requires e <= |s| && !Includes(s[e..], x)
    ensures forall k :: e <= k ==> !PrefixAt(s, k, x)
  {
    forall k | e <= k && PrefixAt(s, k, x) ensures false {
      assert s[e..][k - e..k - e + |x|] == s[k..k + |x|];
      assert PrefixAt(s[e..], k - e, x);
    }
  }

  /** A greeting `Hi <name>, ` at the start of the text is removed, and a
      rest that holds no further `Hi` is kept. */
  lemma SalutationRemoved(name: string, rest: string)
    requires name != [] && ',' !in name
    requires rest == [] || !IsJsSpace(rest[0])
    requires !Includes(rest, "Hi")
    ensures ReplaceAll("Hi " + name + ", " + rest, Salutation) == rest
  {
    var s := "Hi " + name + ", " + rest;
    var c := 3 + |name|;
    var e := c + 2;
    assert s[0..2] == "Hi" && s[2] == ' ';
    forall k | 3 <= k < c ensures s[k] != ',' {
      assert s[k] == name[k - 3];
      assert name[k - 3] in name;
    }
    assert s[c] == ',' && s[c + 1] == ' ';
    NextIndexOfIs(s, ',', 3, c);
    assert e < |s| ==> s[e] == rest[0];
    SpaceRunEndIs(s, c + 1, e);
    assert MatchEnd(Salutation, s, 0) == Some(e);
    ReplaceFromDropsMatch(s, Salutation, 0, e);
    assert s[e..] == rest;
    NothingStartsAfter(s, e, "Hi");
    ReplaceFromNoMatch(s, Salutation, e);
  }

  /** A one-line paragraph `<p…>…</p>` at the start of the text is removed,
      and a rest that opens no further `<p` is kept. */
  lemma ParagraphRemoved(attrs: string, text: string, rest: string)
    requires '>' !in attrs
    requires '<' !in text && forall k :: 0 <= k < |text| ==> !IsLineTerminator(text[k])
    requires !Includes(rest, "<p")
    ensures ReplaceAll("<p" + attrs + ">" + text + "</p>" + rest, Paragraph) == rest
  {
    var s := "<p" + attrs + ">" + text + "</p>" + rest;
    var g := 2 + |attrs|;
    var u := g + 1 + |text|;
    var e := u + 4;
    assert s[0..2] == "<p";
    forall k | 2 <= k < g ensures s[k] != '>' {
      assert s[k] == attrs[k - 2];
      assert attrs[k - 2] in attrs;
    }
    assert s[g] == '>';
    NextIndexOfIs(s, '>', 2, g);
    assert s[u..u + 4] == "</p>";
    forall k | g + 1 <= k < u ensures s[k] != '<' && !IsLineTerminator(s[k]) {
      assert s[k] == text[k - g - 1];
      assert text[k - g - 1] in text;
    }
    forall k | g + 1 <= k < u ensures !PrefixAt(s, k, "</p>") {
      assert k + 4 <= |s| ==> s[k..k + 4][0] == s[k];
    }
    LazyUntilIs(s, g + 1, "</p>", u);
    assert MatchEnd(Paragraph, s, 0) == Some(e);
    ReplaceFromDropsMatch(s, Paragraph, 0, e);
    assert s[e..] == rest;
    NothingStartsAfter(s, e, "<p");
    ReplaceFromNoMatch(s, Paragraph, e);
  }

  /** Corrected, a listed string is removed where it is the whole text. */
  lemma LiteralRemovesItself(t: string)
    requires t != []
    ensures ReplaceAll(t, Unwanted(Literal(t))) == []
  {
    LiteralMatchesOccurrence(t, t, 0);
    assert t[0..|t|] == t;
    ReplaceFromDropsMatch(t, Unwanted(Literal(t)), 0, |t|);
  }

  /** Corrected, the help-centre line is removed. */
  lemma QuestionsLineIsRemoved()
    ensures UnwantedContent[22] == QuestionsLine
    ensures ReplaceAll(QuestionsLine, Unwanted(Literal(QuestionsLine))) == []
  {
    LiteralRemovesItself(QuestionsLine);
  }

  // ---------------------------------------------------------- button html

  /** A `class="` attribute at `q` whose value mentions `button`, then the
      rest of the tag and the link text up to the first `</a>` on the same
      line: where `"[^"]*button[^"]*"[^>]*>.*?<\/a>` ends. */
  function ButtonTail(s: string, q: nat): (r: Option<nat>)
    ensures r.Some? ==> q + 7 < r.value <= |s| && PrefixAt(s, r.value - 4, "</a>")
    ensures r.Some? <==>
              && PrefixAt(s, q, "class=\"")
              && NextIndexOf(s, '"', q + 7).Some?
              && var v := NextIndexOf(s, '"', q + 7).value;
                 && Includes(s[q + 7..v], "button")
                 && NextIndexOf(s, '>', v + 1).Some?
                 && LazyUntil(s, NextIndexOf(s, '>', v + 1).value + 1, "</a>").Some?
  {
    if !PrefixAt(s, q, "class=\"") then None
    else
      match NextIndexOf(s, '"', q + 7)
      case None => None
      case Some(v) =>
        if !Includes(s[q + 7..v], "button") then None
        else
          match NextIndexOf(s, '>', v + 1)
          case None => None
          case Some(t) =>
            match LazyUntil(s, t + 1, "</a>")
            case None => None
            case Some(u) => Some(u + 4)
  }

  function TailTest(s: string): (r: nat -> bool)
    ensures forall q: nat :: r(q) == ButtonTail(s, q).Some?
  {
    (q: nat) => ButtonTail(s, q).Some?
  }

  /** Where `/<a[^>]*class="[^"]*button[^"]*"[^>]*>.*?<\/a>/` ends when it
      starts at `i`; `[^>]*` keeps the attribute before the first `>`. */
  function ButtonEndAt(s: string, i: nat): (r: Option<nat>)
    ensures r.Some? ==> PrefixAt(s, i, "<a") && i + 2 < r.value <= |s|
    ensures r.Some? ==>
              && NextIndexOf(s, '>', i + 2).Some?
              && var g := NextIndexOf(s, '>', i + 2).value;
                 exists c :: i + 2 <= c <= g && r == ButtonTail(s, c) &&
                             forall q :: c < q <= g ==> ButtonTail(s, q).None?
    ensures r.None? <==>
              || !PrefixAt(s, i, "<a")
              || NextIndexOf(s, '>', i + 2).None?
              || forall c :: i + 2 <= c <= NextIndexOf(s, '>', i + 2).value ==> ButtonTail(s, c).None?
  {
    if !PrefixAt(s, i, "<a") then None
    else
      match NextIndexOf(s, '>', i + 2)
      case None => None
      case Some(g) =>
        // the greedy `[^>]*` before `class="` tries the latest start first
        match RightmostIn(i + 2, g, TailTest(s))
        case None => None
        case Some(c) => ButtonTail(s, c)
  }

  function ButtonTest(s: string): (r: nat -> bool)
    ensures forall i: nat :: r(i) == ButtonEndAt(s, i).Some?
  {
    (i: nat) => ButtonEndAt(s, i).Some?
  }

  /** `linkButtonMatch ? linkButtonMatch[0] : ""`: the leftmost button, or
      nothing. */
  function ButtonHtml(s: string): (r: string)
    ensures r != [] ==> exists i :: 0 <= i < |s| && ButtonEndAt(s, i).Some? &&
                                    r == s[i..ButtonEndAt(s, i).value] &&
                                    forall j :: 0 <= j < i ==> ButtonEndAt(s, j).None?
    ensures r == [] <==> forall i :: 0 <= i < |s| ==> ButtonEndAt(s, i).None?
  {
    match LeftmostFrom(|s|, ButtonTest(s), 0)
    case None => []
    case Some(i) => s[i..ButtonEndAt(s, i).value]
  }

  /** The anchor `<a class="cls">text</a>`. */
  function Anchor(cls: string, text: string): string {
    "<a class=\"" + cls + "\">" + text + "</a>"
  }

  /** An anchor `<a class="cls">text</a>` whose class mentions `button`, on
      one line and with no `<` in its text, is the button found when no `<`
      comes before it, whatever follows. */
  lemma ButtonOfAnchor(pre: string, cls: string, text: string, rest: string)
    requires '<' !in pre
    requires '"' !in cls && '>' !in cls && '=' !in cls && Includes(cls, "button")
    requires '<' !in text && forall k :: 0 <= k < |text| ==> !IsLineTerminator(text[k])
    ensures ButtonHtml(pre + Anchor(cls, text) + rest) == Anchor(cls, text)
  {
    var s := pre + Anchor(cls, text) + rest;
    Parts3(pre, Anchor(cls, text), rest);
    NoOpenIn(s, pre);
    NoButtonBefore(s, |pre|);
    FirstButtonAnchor(s, |pre|, cls, text);
  }

  /** A button anchor at `m` with no match before it is the button found. */
  lemma FirstButtonAnchor(s: string, m: nat, cls: string, text: string)
    requires m + |Anchor(cls, text)| <= |s| && s[m..m + |Anchor(cls, text)|] == Anchor(cls, text)
    requires '"' !in cls && '>' !in cls && '=' !in cls && Includes(cls, "button")
    requires '<' !in text && forall k :: 0 <= k < |text| ==> !IsLineTerminator(text[k])
    requires forall j :: 0 <= j < m ==> ButtonEndAt(s, j).None?
    ensures ButtonHtml(s) == Anchor(cls, text)
  {
    var e := m + |Anchor(cls, text)|;
    AnchorMatch(s, m, cls, text, e);
    FirstMatchIs(s, m, e);
  }

  /** The button pattern run at a button anchor ends right after it. */
  lemma AnchorMatch(s: string, m: nat, cls: string, text: string, e: nat)
    requires e == m + |Anchor(cls, text)| <= |s| && s[m..e] == Anchor(cls, text)
    requires '"' !in cls && '>' !in cls && '=' !in cls && Includes(cls, "button")
    requires '<' !in text && forall k :: 0 <= k < |text| ==> !IsLineTerminator(text[k])
    ensures ButtonEndAt(s, m) == Some(e)
  {
    AnchorLayout(s, m, cls, text);
    assert Includes(s[m + 10..m + 10 + |cls|], "button");
    AnchorEnd(s, m, cls, text, e);
  }

  /** The button is the match at `m` when no match starts before it. */
  lemma FirstMatchIs(s: string, m: nat, e: nat)
    requires ButtonEndAt(s, m) == Some(e)
    requires forall j :: 0 <= j < m ==> ButtonEndAt(s, j).None?
    ensures ButtonHtml(s) == s[m..e]
  {
    LeftmostIs(|s|, ButtonTest(s), 0, m);
  }

  /** The button pattern run from `i` over `<a class="cls">text</a>` ends
      right after it. */
  lemma AnchorEnd(s: string, i: nat, cls: string, text: string, e: nat)
    requires e == i + 16 + |cls| + |text| <= |s|
    requires s[i..i + 10] == "<a class=\""
    requires s[i + 10..i + 10 + |cls|] == cls && Includes(s[i + 10..i + 10 + |cls|], "button")
    requires s[i + 10 + |cls|..i + 12 + |cls|] == "\">"
    requires s[i + 12 + |cls|..i + 12 + |cls| + |text|] == text
    requires s[i + 12 + |cls| + |text|..i + 16 + |cls| + |text|] == "</a>"
    requires forall k :: i + 10 <= k < i + 10 + |cls| ==> s[k] != '"' && s[k] != '>' && s[k] != '='
    requires '<' !in text && forall k :: 0 <= k < |text| ==> !IsLineTerminator(text[k])
    ensures ButtonEndAt(s, i) == Some(e)
  {
    var v := i + 10 + |cls|;
    var u := v + 2 + |text|;
    AnchorChars(s, i, cls);
    TagCloseAt(s, i, v);
    NextIndexOfIs(s, '"', i + 10, v);
    NextIndexOfIs(s, '>', v + 1, v + 1);
    AnchorTail(s, i + 3, v, text, u, e);
    OnlyClassAttr(s, i, cls);
    ButtonEndIs(s, i, v + 1, i + 3, e);
  }

  /** Where the parts of the anchor at `i` lie in the whole text. */
  lemma AnchorLayout(s: string, i: nat, cls: string, text: string)
    requires i + |Anchor(cls, text)| <= |s| && s[i..i + |Anchor(cls, text)|] == Anchor(cls, text)
    requires '"' !in cls && '>' !in cls && '=' !in cls
    ensures i + 16 + |cls| + |text| == i + |Anchor(cls, text)|
    ensures s[i..i + 10] == "<a class=\""
    ensures s[i + 10..i + 10 + |cls|] == cls
    ensures s[i + 10 + |cls|..i + 12 + |cls|] == "\">"
    ensures s[i + 12 + |cls|..i + 12 + |cls| + |text|] == text
    ensures s[i + 12 + |cls| + |text|..i + 16 + |cls| + |text|] == "</a>"
    ensures forall k :: i + 10 <= k < i + 10 + |cls| ==> s[k] != '"' && s[k] != '>' && s[k] != '='
  {
    var anchor := Anchor(cls, text);
    var v := i + 10 + |cls|;
    var u := v + 2 + |text|;
    AnchorParts(cls, text);
    SliceWithin(s, i, anchor, 0, 10);
    SliceWithin(s, i, anchor, 10, 10 + |cls|);
    SliceWithin(s, i, anchor, 10 + |cls|, 12 + |cls|);
    SliceWithin(s, i, anchor, 12 + |cls|, 12 + |cls| + |text|);
    SliceWithin(s, i, anchor, 12 + |cls| + |text|, |anchor|);
    assert anchor[..10] == anchor[0..10];
    assert anchor[12 + |cls| + |text|..] == anchor[12 + |cls| + |text|..|anchor|];
    forall k | i + 10 <= k < v ensures s[k] != '"' && s[k] != '>' && s[k] != '=' {
      assert s[k] == cls[k - i - 10];
      assert cls[k - i - 10] in cls;
    }
  }

  /** A slice of the part `w` of `s` at `i` is a slice of `s`. */
  lemma SliceWithin(s: string, i: nat, w: string, a: nat, b: nat)
    requires i + |w| <= |s| && s[i..i + |w|] == w && a <= b <= |w|
    ensures s[i + a..i + b] == w[a..b]
  {
    forall k | 0 <= k < b - a ensures s[i + a..i + b][k] == w[a..b][k] {
      assert w[a + k] == s[i..i + |w|][a + k];
    }
  }

  /** The parts of `<a class="cls">text</a>`. */
  lemma AnchorParts(cls: string, text: string)
    ensures |Anchor(cls, text)| == 16 + |cls| + |text|
    ensures Anchor(cls, text)[..10] == "<a class=\""
    ensures Anchor(cls, text)[10..10 + |cls|] == cls
    ensures Anchor(cls, text)[10 + |cls|..12 + |cls|] == "\">"
    ensures Anchor(cls, text)[12 + |cls|..12 + |cls| + |text|] == text
    ensures Anchor(cls, text)[12 + |cls| + |text|..] == "</a>"
  {
    var open := "<a class=\"" + cls;
    Parts3("<a class=\"", cls, "\">" + text + "</a>");
    Parts3(open + "\">", text, "</a>");
    assert Anchor(cls, text) == "<a class=\"" + cls + ("\">" + text + "</a>");
    assert Anchor(cls, text) == open + "\">" + text + "</a>";
    assert Anchor(cls, text)[10 + |cls|..12 + |cls|] == ("\">" + text + "</a>")[..2];
  }

  /** The parts of `a + b + c`: `a` first, then `b`. */
  lemma Parts3(a: string, b: string, c: string)
    ensures (a + b + c)[..|a|] == a
    ensures (a + b + c)[|a|..|a| + |b|] == b
  {
  }

  /** The parts of `a + b + c + d`: `a` first, then `b`, then `c`. */
  lemma Parts4(a: string, b: string, c: string, d: string)
    ensures (a + b + c + d)[..|a|] == a
    ensures (a + b + c + d)[|a|..|a| + |b|] == b
    ensures (a + b + c + d)[|a| + |b|..|a| + |b| + |c|] == c
  {
    Parts3(a + b, c, d);
    assert (a + b + c + d)[..|a| + |b|] == a + b;
    assert (a + b + c + d)[..|a|] == (a + b)[..|a|];
    assert (a + b + c + d)[|a|..|a| + |b|] == (a + b)[|a|..];
  }

  /** A prefix without `<` puts no `<` before its end. */
  lemma NoOpenIn(s: string, pre: string)
    requires '<' !in pre && |pre| <= |s| && s[..|pre|] == pre
    ensures forall j :: 0 <= j < |pre| ==> s[j] != '<'
  {
    forall j | 0 <= j < |pre| ensures s[j] != '<' {
      assert s[j] == s[..|pre|][j] && pre[j] in pre;
    }
  }

  /** No button match starts inside a prefix without `<`. */
  lemma NoButtonBefore(s: string, n: nat)
    requires n <= |s| && forall j :: 0 <= j < n ==> s[j] != '<'
    ensures forall j :: 0 <= j < n ==> ButtonEndAt(s, j).None?
  {
    forall j | 0 <= j < n ensures !PrefixAt(s, j, "<a") {
      assert j + 2 <= |s| ==> s[j..j + 2][0] == s[j];
    }
  }

  /** The characters of `<a class="` + `cls` + `">` laid out at `i`. */
  lemma AnchorChars(s: string, i: nat, cls: string)
    requires i + 12 + |cls| <= |s|
    requires s[i..i + 10] == "<a class=\""
    requires s[i + 10..i + 10 + |cls|] == cls
    requires s[i + 10 + |cls|..i + 12 + |cls|] == "\">"
    ensures PrefixAt(s, i, "<a") && PrefixAt(s, i + 3, "class=\"") && s[i + 2] == ' '
    ensures forall k :: i + 2 <= k < i + 10 ==> s[k] != '>'
    ensures forall k :: i + 4 <= k < i + 10 ==> s[k] != 'c'
    ensures s[i + 10 + |cls|] == '"' && s[i + 11 + |cls|] == '>'
  {
    var lit := s[i..i + 10];
    assert s[i + 2] == lit[2];
    assert s[i..i + 2] == lit[..2];
    assert s[i + 3..i + 10] == lit[3..];
    forall k | i + 2 <= k < i + 10 ensures s[k] != '>' {
      assert s[k] == lit[k - i];
      assert lit[k - i] in lit;
    }
    var tail := s[i + 4..i + 10];
    assert tail == lit[4..] == "lass=\"";
    forall k | i + 4 <= k < i + 10 ensures s[k] != 'c' {
      assert s[k] == tail[k - i - 4];
      assert tail[k - i - 4] in tail;
    }
    var v := i + 10 + |cls|;
    assert s[v] == s[v..v + 2][0] && s[v + 1] == s[v..v + 2][1];
  }

  /** The tag's first `>` is the one after the class value's closing `"`. */
  lemma TagCloseAt(s: string, i: nat, v: nat)
    requires i + 10 <= v && v + 1 < |s|
    requires forall k :: i + 2 <= k < i + 10 ==> s[k] != '>'
    requires forall k :: i + 10 <= k < v ==> s[k] != '"' && s[k] != '>' && s[k] != '='
    requires s[v] == '"' && s[v + 1] == '>'
    ensures NextIndexOf(s, '>', i + 2) == Some(v + 1)
  {
    NextIndexOfIs(s, '>', i + 2, v + 1);
  }

  /** `ButtonTail` from its parts. */
  lemma ButtonTailIs(s: string, q: nat, v: nat, u: nat)
    requires PrefixAt(s, q, "class=\"")
    requires NextIndexOf(s, '"', q + 7) == Some(v) && Includes(s[q + 7..v], "button")
    requires NextIndexOf(s, '>', v + 1) == Some(v + 1)
    requires LazyUntil(s, v + 2, "</a>") == Some(u)
    ensures ButtonTail(s, q) == Some(u + 4)
  {
  }

  /** The tail of the anchor's match: the class value, the tag's `>`, then
      the text up to `</a>`. */
  lemma AnchorTail(s: string, q: nat, v: nat, text: string, u: nat, e: nat)
    requires PrefixAt(s, q, "class=\"")
    requires NextIndexOf(s, '"', q + 7) == Some(v) && Includes(s[q + 7..v], "button")
    requires NextIndexOf(s, '>', v + 1) == Some(v + 1)
    requires u == v + 2 + |text| && e == u + 4 <= |s|
    requires s[v + 2..u] == text && s[u..e] == "</a>"
    requires '<' !in text && forall k :: 0 <= k < |text| ==> !IsLineTerminator(text[k])
    ensures ButtonTail(s, q) == Some(e)
  {
    LazyOverText(s, v + 2, text, "</a>");
    ButtonTailIs(s, q, v, u);
  }

  /** `ButtonEndAt` from its parts: the greedy `[^>]*` settles on the last
      `class="` before the tag's first `>`. */
  lemma ButtonEndIs(s: string, i: nat, g: nat, c: nat, e: nat)
    requires PrefixAt(s, i, "<a") && NextIndexOf(s, '>', i + 2) == Some(g)
    requires i + 2 <= c <= g && ButtonTail(s, c) == Some(e)
    requires forall q :: c < q <= g ==> !PrefixAt(s, q, "class=\"")
    ensures ButtonEndAt(s, i) == Some(e)
  {
    var p := TailTest(s);
    forall q | c < q <= g ensures !p(q) {
      assert ButtonTail(s, q).None?;
    }
    RightmostIs(i + 2, g, p, c);
  }

  /** `.*?close` over a one-line `text` without `close[0]` stops at the
      `close` right after it. */
  lemma LazyOverText(s: string, from: nat, text: string, close: string)
    requires from + |text| + |close| <= |s| && close != []
    requires s[from..from + |text|] == text && s[from + |text|..from + |text| + |close|] == close
    requires close[0] !in text && forall k :: 0 <= k < |text| ==> !IsLineTerminator(text[k])
    ensures LazyUntil(s, from, close) == Some(from + |text|)
  {
    var u := from + |text|;
    forall k | from <= k < u ensures s[k] != close[0] && !IsLineTerminator(s[k]) {
      assert s[k] == text[k - from];
      assert text[k - from] in text;
    }
    forall k | from <= k < u ensures !PrefixAt(s, k, close) {
      assert k + |close| <= |s| ==> s[k..k + |close|][0] == s[k];
    }
    LazyUntilIs(s, from, close, u);
  }

  /** No `class="` starts after `i + 3` and up to the tag's `>`: the class
      value holds neither `"` nor `=`. */
  lemma OnlyClassAttr(s: string, i: nat, cls: string)
    requires i + 12 + |cls| <= |s|
    requires forall k :: i + 4 <= k < i + 10 ==> s[k] != 'c'
    requires forall k :: i + 10 <= k < i + 10 + |cls| ==> s[k] != '"' && s[k] != '='
    requires s[i + 10 + |cls|] == '"' && s[i + 11 + |cls|] == '>'
    ensures forall q :: i + 3 < q <= i + 11 + |cls| ==> !PrefixAt(s, q, "class=\"")
  {
    var v := i + 10 + |cls|;
    var lit := "class=\"";
    assert lit[..6] == "class=";
    forall q | i + 3 < q <= v + 1 ensures !PrefixAt(s, q, lit) {
      if q + 7 <= |s| {
        var w := s[q..q + 7];
        if q < i + 10 || q == v + 1 {
          assert w[0] == s[q] != lit[0];
        } else if q + 5 < v {
          assert w[5] == s[q + 5] != lit[5];
        } else {
          var d := v - q;
          assert d < 6 && w[d] == s[v];
          assert lit[d] == lit[..6][d] && lit[..6][d] in lit[..6];
          assert w[d] != lit[d];
        }
      }
    }
  }

  /** An anchor whose class does not mention `button` is passed over: with
      no `<` before it and none inside it, the button anchor right after it
      is the one found, whatever follows. */
  lemma NonButtonAnchorSkipped(pre: string, plainClass: string, plainText: string,
                               buttonClass: string, buttonText: string, rest: string)
    requires '<' !in pre
    requires '"' !in plainClass && '>' !in plainClass && '=' !in plainClass && '<' !in plainClass
    requires !Includes(plainClass, "button") && '<' !in plainText
    requires '"' !in buttonClass && '>' !in buttonClass && '=' !in buttonClass && Includes(buttonClass, "button")
    requires '<' !in buttonText && forall k :: 0 <= k < |buttonText| ==> !IsLineTerminator(buttonText[k])
    ensures ButtonHtml(pre + Anchor(plainClass, plainText) + Anchor(buttonClass, buttonText) + rest) ==
            Anchor(buttonClass, buttonText)
  {
    var plain := Anchor(plainClass, plainText);
    var button := Anchor(buttonClass, buttonText);
    var s := pre + plain + button + rest;
    Parts4(pre, plain, button, rest);
    NoOpenIn(s, pre);
    PlainAnchorPassed(s, |pre|, plainClass, plainText);
    FirstButtonAnchor(s, |pre| + |plain|, buttonClass, buttonText);
  }

  /** No match starts before the end of an anchor whose class does not
      mention `button`, when no `<` comes before it and none is inside it. */
  lemma PlainAnchorPassed(s: string, i: nat, cls: string, text: string)
    requires i + |Anchor(cls, text)| <= |s| && s[i..i + |Anchor(cls, text)|] == Anchor(cls, text)
    requires forall j :: 0 <= j < i ==> s[j] != '<'
    requires '"' !in cls && '>' !in cls && '=' !in cls && '<' !in cls && !Includes(cls, "button")
    requires '<' !in text
    ensures forall j :: 0 <= j < i + |Anchor(cls, text)| ==> ButtonEndAt(s, j).None?
  {
    AnchorLayout(s, i, cls, text);
    NoButtonBefore(s, i);
    NotButtonAt(s, i, cls);
    NoAnchorInside(s, i, cls, text);
  }

  /** The anchor at `i` is no button match when its class value does not
      mention `button`. */
  lemma NotButtonAt(s: string, i: nat, cls: string)
    requires i + 12 + |cls| <= |s|
    requires s[i..i + 10] == "<a class=\""
    requires s[i + 10..i + 10 + |cls|] == cls && !Includes(cls, "button")
    requires s[i + 10 + |cls|..i + 12 + |cls|] == "\">"
    requires forall k :: i + 10 <= k < i + 10 + |cls| ==> s[k] != '"' && s[k] != '>' && s[k] != '='
    ensures ButtonEndAt(s, i).None?
  {
    var v := i + 10 + |cls|;
    AnchorChars(s, i, cls);
    TagCloseAt(s, i, v);
    NextIndexOfIs(s, '"', i + 10, v);
    OnlyClassAttr(s, i, cls);
    assert !PrefixAt(s, i + 2, "class=\"") by {
      assert i + 9 <= |s| ==> s[i + 2..i + 9][0] == s[i + 2];
    }
    forall c | i + 2 <= c <= v + 1 ensures ButtonTail(s, c).None? {
    }
  }

  /** No `<a` starts inside the anchor `<a class="cls">text</a>` at `i`
      when neither `cls` nor `text` holds a `<`. */
  lemma NoAnchorInside(s: string, i: nat, cls: string, text: string)
    requires i + |Anchor(cls, text)| <= |s| && s[i..i + |Anchor(cls, text)|] == Anchor(cls, text)
    requires '<' !in cls && '<' !in text
    ensures forall j :: i < j < i + |Anchor(cls, text)| ==> ButtonEndAt(s, j).None?
  {
    var anchor := Anchor(cls, text);
    OnlyClosingOpen(cls, text);
    var w := s[i..i + |anchor|];
    forall j | i < j < i + |anchor| ensures !PrefixAt(s, j, "<a") {
      assert s[j] == w[j - i];
      if w[j - i] == '<' {
        assert s[j + 1] == w[j - i + 1];
      }
      NoOpenAnchorAt(s, j);
    }
  }

  /** No `<a` starts at `j` when `s[j]` is not `<` or the next character
      is not `a`. */
  lemma NoOpenAnchorAt(s: string, j: nat)
    requires j < |s| && (s[j] != '<' || (j + 1 < |s| && s[j + 1] != 'a'))
    ensures !PrefixAt(s, j, "<a")
  {
    if j + 2 <= |s| {
      assert s[j..j + 2][0] == s[j] && s[j..j + 2][1] == s[j + 1];
    }
  }

  /** The only `<` after the first in `<a class="cls">text</a>` is the one
      of `</a>`, when neither `cls` nor `text` holds a `<`. */
  lemma OnlyClosingOpen(cls: string, text: string)
    requires '<' !in cls && '<' !in text
    ensures forall k :: 0 < k < |Anchor(cls, text)| && Anchor(cls, text)[k] == '<' ==>
                          k + 1 < |Anchor(cls, text)| && Anchor(cls, text)[k + 1] == '/'
  {
    var anchor := Anchor(cls, text);
    var c := |cls|;
    var t := |text|;
    AnchorParts(cls, text);
    forall k | 0 < k < 12 + c + t ensures anchor[k] != '<' {
      if k < 10 {
        assert anchor[k] == anchor[..10][k];
      } else if k < 10 + c {
        assert anchor[k] == anchor[10..10 + c][k - 10] && cls[k - 10] in cls;
      } else if k < 12 + c {
        assert anchor[k] == anchor[10 + c..12 + c][k - 10 - c];
      } else {
        assert anchor[k] == anchor[12 + c..12 + c + t][k - 12 - c] && text[k - 12 - c] in text;
      }
    }
    var close := anchor[12 + c + t..];
    forall k | 12 + c + t < k < |anchor| ensures anchor[k] != '<' {
      assert anchor[k] == close[k - 12 - c - t];
    }
    assert anchor[13 + c + t] == close[1];
  }


  // ------------------------------------------------------------- cleaning

  /** The `unwantedContent` list, in order. */
  const UnwantedContent: seq<string> := [
    "If you did not initiate this request, consider",
    "did not initiate this request,",
    "Keep your account secure:",
    "we recommend that you immediately",
    "sign out of all devices that you",
    "If you ",
    "know who this was,",
    "You can also",
    "change your password",
    "don",
    " /a>.",
    "recognise",
    "recognize",
    "Netflix International B.V.",
    "Notification Settings",
    "Terms of Use",
    "Privacy",
    "We're here to help",
    "Visit the for more info.",
    "If you did not initiate this request,",
    "please consider",
    "changing your password.",
    "Questions? Visit the Help Center",
    "Netflix Services Canada ULC",
    "1200 Waterfront Centre, 200 Burrard St, Vancouver, BC V7X 1T2, Canada",
    "The Netflix team",
    "'t't"
  ]

  /** The body after the `forEach` over `unwanted`: each listed string
      removed in turn from the result of the previous ones, read verbatim
      (the corrected reading: see `QuestionsLineIsNotMatched`). */
  function Stripped(s: string, unwanted: seq<string>): (r: string)
    ensures |r| <= |s|
    decreases |unwanted|
  {
    if unwanted == [] then s
    else ReplaceAll(Stripped(s, unwanted[..|unwanted| - 1]), Unwanted(Literal(unwanted[|unwanted| - 1])))
  }

  /** The whole clean-up: the unwanted strings, then the greeting, then the
      paragraphs, and the button found in the original body appended. */
  function CleanedWith(body: string, unwanted: seq<string>): (r: string)
    ensures |r| <= |body| + |ButtonHtml(body)|
    ensures |ButtonHtml(body)| <= |r| && r[|r| - |ButtonHtml(body)|..] == ButtonHtml(body)
    ensures var t := ReplaceAll(ReplaceAll(Stripped(body, unwanted), Salutation), Paragraph);
            |r| == |t| + |ButtonHtml(body)| && r[..|t|] == t
  {
    var t := ReplaceAll(ReplaceAll(Stripped(body, unwanted), Salutation), Paragraph);
    assert (t + ButtonHtml(body))[|t|..] == ButtonHtml(body);
    assert (t + ButtonHtml(body))[..|t|] == t;
    t + ButtonHtml(body)
  }

  /** A text in which no listed string occurs, ignoring case, comes through
      the `forEach` unchanged. */
  lemma {:induction false} StrippedKeepsText(s: string, unwanted: seq<string>)
    requires forall x, k :: x in unwanted && 0 <= k < |s| ==> !FoldPrefixAt(s, k, x)
    ensures Stripped(s, unwanted) == s
    decreases |unwanted|
  {
    if unwanted != [] {
      var init, x := unwanted[..|unwanted| - 1], unwanted[|unwanted| - 1];
      assert forall y :: y in init ==> y in unwanted;
      StrippedKeepsText(s, init);
      assert x in unwanted;
      forall k | 0 <= k < |s| ensures MatchEnd(Unwanted(Literal(x)), s, k).None? {
        LiteralMatchesOccurrence(x, s, k);
      }
      ReplaceAllNoMatch(s, Unwanted(Literal(x)));
    }
  }

  /** Where nothing non-empty matches on `[j, i)`, those characters are kept. */
  lemma {:induction false} ReplaceFromKeeps(s: string, p: Pattern, j: nat, i: nat)
    requires j <= i <= |s|
    requires forall k :: j <= k < i ==> MatchEnd(p, s, k).None? || MatchEnd(p, s, k) == Some(k)
    ensures ReplaceFrom(s, p, j) == s[j..i] + ReplaceFrom(s, p, i)
    decreases i - j
  {
    if j < i {
      ReplaceFromKeeps(s, p, j + 1, i);
      ReplaceFromKeepsOne(s, p, j);
      ConsSlice(s, j, i, ReplaceFrom(s, p, i));
    }
  }

  /** A position where nothing non-empty matches keeps its character. */
  lemma ReplaceFromKeepsOne(s: string, p: Pattern, j: nat)
    requires j < |s| && (MatchEnd(p, s, j).None? || MatchEnd(p, s, j) == Some(j))
    ensures ReplaceFrom(s, p, j) == [s[j]] + ReplaceFrom(s, p, j + 1)
  {
  }

  lemma ConsSlice(s: string, j: nat, i: nat, t: string)
    requires j < i <= |s|
    ensures [s[j]] + (s[j + 1..i] + t) == s[j..i] + t
  {
    assert s[j..i] == [s[j]] + s[j + 1..i];
  }

  /** The match of the pattern at `m + k` is the match in the suffix from
      `m` at `k`, moved by `m`. */
  predicate MatchShifts(atoms: seq<Atom>, s: string, m: nat, k: nat)
    requires m + k <= |s|
  {
    MatchEnd(Unwanted(atoms), s, m + k) == Moved(MatchEnd(Unwanted(atoms), s[m..], k), m)
  }

  /** Whether a match ending at `o` is dropped by the replace at `i`. */
  predicate DropsAt(o: Option<nat>, i: nat) {
    o.Some? && o.value > i
  }

  /** Where the replace goes on after position `i`. */
  function StepEnd(o: Option<nat>, i: nat): nat {
    if DropsAt(o, i) then o.value else i + 1
  }

  /** One step of the replace at `i`: a dropped match, or one kept character. */
  lemma ReplaceStep(s: string, p: Pattern, i: nat, o: Option<nat>)
    requires i < |s| && o == MatchEnd(p, s, i)
    ensures StepEnd(o, i) <= |s|
    ensures ReplaceFrom(s, p, i) == (if DropsAt(o, i) then [] else [s[i]]) + ReplaceFrom(s, p, StepEnd(o, i))
  {
  }

  /** A global replace from `m + j` is the replace of the suffix from `m`
      on, when matches shift with the text. */
  lemma {:induction false} ReplaceShift(s: string, atoms: seq<Atom>, m: nat, j: nat)
    requires m + j <= |s|
    requires forall k {:trigger MatchShifts(atoms, s, m, k)} :: j <= k < |s| - m ==> MatchShifts(atoms, s, m, k)
    ensures ReplaceFrom(s, Unwanted(atoms), m + j) == ReplaceFrom(s[m..], Unwanted(atoms), j)
    decreases |s| - m - j
  {
    if m + j < |s| {
      var next, w := ShiftStep(s, atoms, m, j);
      ReplaceShift(s, atoms, m, next);
    }
  }

  /** One step of the replace, the same in the whole text and in the
      suffix: the kept text `w` and where the scan goes on. */
  lemma ShiftStep(s: string, atoms: seq<Atom>, m: nat, j: nat) returns (next: nat, w: string)
    requires m + j < |s| && MatchShifts(atoms, s, m, j)
    ensures j < next <= |s| - m
    ensures ReplaceFrom(s, Unwanted(atoms), m + j) == w + ReplaceFrom(s, Unwanted(atoms), m + next)
    ensures ReplaceFrom(s[m..], Unwanted(atoms), j) == w + ReplaceFrom(s[m..], Unwanted(atoms), next)
  {
    var p := Unwanted(atoms);
    var t := s[m..];
    var o := MatchEnd(p, t, j);
    assert MatchShifts(atoms, s, m, j);
    MovedStep(o, m, j);
    ReplaceStep(s, p, m + j, Moved(o, m));
    ReplaceStep(t, p, j, o);
    assert t[j] == s[m + j];
    next := StepEnd(o, j);
    w := if DropsAt(o, j) then [] else [t[j]];
  }

  /** Moving a match by `m` moves where the scan goes on by `m`. */
  lemma MovedStep(o: Option<nat>, m: nat, j: nat)
    requires o.Some? ==> j <= o.value
    ensures DropsAt(Moved(o, m), m + j) == DropsAt(o, j)
    ensures StepEnd(Moved(o, m), m + j) == m + StepEnd(o, j)
  {
  }

  /** A literal looks only forward, so its matches shift with the text. */
  lemma LiteralMatchShifts(s: string, x: string, m: nat, k: nat)
    requires m + k <= |s|
    ensures MatchShifts(Literal(x), s, m, k)
  {
    LiteralMatchesOccurrence(x, s, m + k);
    LiteralMatchesOccurrence(x, s[m..], k);
    PrefixAtShift(s, m, k, x);
  }

  /** One `replace(new RegExp(x, "gi"), "")`, literally read: the text before
      the first occurrence of `x` is kept, that occurrence is removed, and
      the replace goes on after it. */
  lemma LiteralRemovesFirstOccurrence(t: string, x: string, i: nat)
    requires x != [] && FoldPrefixAt(t, i, x)
    requires forall k :: 0 <= k < i ==> !FoldPrefixAt(t, k, x)
    ensures ReplaceAll(t, Unwanted(Literal(x))) == t[..i] + ReplaceAll(t[i + |x|..], Unwanted(Literal(x)))
  {
    LiteralKeepsBefore(t, x, i);
    LiteralRestShifts(t, x, i + |x|);
  }

  /** Up to the first occurrence the text is kept; the occurrence itself is
      dropped. */
  lemma LiteralKeepsBefore(t: string, x: string, i: nat)
    requires x != [] && FoldPrefixAt(t, i, x)
    requires forall k :: 0 <= k < i ==> !FoldPrefixAt(t, k, x)
    ensures i + |x| <= |t|
    ensures ReplaceAll(t, Unwanted(Literal(x))) == t[..i] + ReplaceFrom(t, Unwanted(Literal(x)), i + |x|)
  {
    var p := Unwanted(Literal(x));
    forall k | 0 <= k < i ensures MatchEnd(p, t, k).None? {
      LiteralMatchesOccurrence(x, t, k);
    }
    ReplaceFromKeeps(t, p, 0, i);
    LiteralMatchesOccurrence(x, t, i);
    ReplaceFromDropsMatch(t, p, i, i + |x|);
    assert t[0..i] == t[..i];
  }

  /** Removing a literal from position `m` on is removing it from `t[m..]`. */
  lemma LiteralRestShifts(t: string, x: string, m: nat)
    requires m <= |t|
    ensures ReplaceFrom(t, Unwanted(Literal(x)), m) == ReplaceAll(t[m..], Unwanted(Literal(x)))
  {
    forall k {:trigger MatchShifts(Literal(x), t, m, k)} | 0 <= k < |t| - m
      ensures MatchShifts(Literal(x), t, m, k)
    {
      LiteralMatchShifts(t, x, m, k);
    }
    ReplaceShift(t, Literal(x), m, 0);
  }

  /** Each step of the `forEach` removes the first occurrence of its string
      from what the earlier steps left, keeping the text before it. */
  lemma StrippedDropsFirstOccurrence(s: string, unwanted: seq<string>, x: string, i: nat)
    requires x != [] && FoldPrefixAt(Stripped(s, unwanted), i, x)
    requires forall k :: 0 <= k < i ==> !FoldPrefixAt(Stripped(s, unwanted), k, x)
    ensures var t := Stripped(s, unwanted);
            Stripped(s, unwanted + [x]) == t[..i] + ReplaceAll(t[i + |x|..], Unwanted(Literal(x)))
  {
    assert (unwanted + [x])[..|unwanted|] == unwanted;
    LiteralRemovesFirstOccurrence(Stripped(s, unwanted), x, i);
  }

  /** A body with no listed string, no `Hi` and no `<p` is kept whole, and
      its button is appended. */
  lemma CleanedKeepsCleanText(body: string, unwanted: seq<string>)
    requires forall x, k :: x in unwanted && 0 <= k < |body| ==> !FoldPrefixAt(body, k, x)
    requires !Includes(body, "Hi") && !Includes(body, "<p")
    ensures CleanedWith(body, unwanted) == body + ButtonHtml(body)
  {
    StrippedKeepsText(body, unwanted);
    assert body[0..] == body;
    NothingStartsAfter(body, 0, "Hi");
    ReplaceAllNoMatch(body, Salutation);
    NothingStartsAfter(body, 0, "<p");
    ReplaceAllNoMatch(body, Paragraph);
  }

  /** The `forEach` loop. */
  method StripUnwanted(body: string, unwanted: seq<string>) returns (r: string)
    ensures r == Stripped(body, unwanted)
  {
    r := body;
    for k := 0 to |unwanted|
      invariant r == Stripped(body, unwanted[..k])
    {
      assert unwanted[..k + 1][..k] == unwanted[..k];
      r := ReplaceAll(r, Unwanted(Literal(unwanted[k])));
    }
    assert unwanted[..|unwanted|] == unwanted;
  }

  /** The clean-up as the controller runs it. */
  method CleanBody(body: string, unwanted: seq<string>) returns (r: string)
    ensures r == CleanedWith(body, unwanted)
  {
    var button := ButtonHtml(body);
    r := StripUnwanted(body, unwanted);
    r := ReplaceAll(r, Salutation);
    r := ReplaceAll(r, Paragraph);
    r := r + button;
  }

  // --------------------------------------------------------------- handler

  /** Why the controller refuses, one kind per error reply. */
  datatype Refusal =
    | EmailRequired | NoRelevantEmail | NoRecipient | Unauthorized
    | LinkExpired | NoContent | ServerError

  function Status(e: Refusal): (r: int)
    ensures r == 400 <==> e == EmailRequired || e == LinkExpired
    ensures r == 404 <==> e == NoRelevantEmail || e == NoRecipient || e == NoContent
    ensures r == 403 <==> e == Unauthorized
    ensures r == 500 <==> e == ServerError
  {
    match e
    case EmailRequired => 400
    case NoRelevantEmail => 404
    case NoRecipient => 404
    case Unauthorized => 403
    case LinkExpired => 400
    case NoContent => 404
    case ServerError => 500
  }

  function ErrorText(e: Refusal): string {
    match e
    case EmailRequired => "Email is required."
    case NoRelevantEmail => "No relevant email found!"
    case NoRecipient => "Recipient email not found in the email headers."
    case Unauthorized => "Unauthorized email. The email was not sent to this address."
    case LinkExpired => "The email link has expired. Please request again."
    case NoContent => "No email content found!"
    case ServerError => "Internal server error"
  }

  /** The reply: a refusal, or (200) the requester, the mail's sender,
      subject and date header (with their defaults) and the cleaned body. */
  datatype Reply =
    | Refused(reason: Refusal)
    | Delivered(requesterEmail: string, from: string, subject: string, date: string, emailBody: string)

  /** What the handler answers for `email` at time `now` when the search
      returned `ms` (newest first), the checks in source order. */
  function Respond(email: string, ms: seq<Message>, now: int, lib: Library): (r: Reply)
    ensures r.Delivered? ==>
              && email != "" && |ms| > 0 && r.requesterEmail == email
              && Truthy(HeaderValue(ms[0].headers, "To"))
              && BareAddress(HeaderValue(ms[0].headers, "To").value) == email
              && r.date == HeaderOr(ms[0].headers, "Date", "Unknown Date")
              && WithinWindow(lib.parseDate(r.date), now)
              && FirstHtmlRead(ms[0].parts, lib.base64).Decoded?
              && r.emailBody == CleanedWith(FirstHtmlRead(ms[0].parts, lib.base64).text, UnwantedContent)
    ensures r == Refused(Unauthorized) <==>
              && email != "" && |ms| > 0
              && Truthy(HeaderValue(ms[0].headers, "To"))
              && BareAddress(HeaderValue(ms[0].headers, "To").value) != email
    ensures r == Refused(EmailRequired) <==> email == ""
    ensures r == Refused(NoRelevantEmail) <==> email != "" && |ms| == 0
    ensures r == Refused(NoRecipient) <==> email != "" && |ms| > 0 && !Truthy(HeaderValue(ms[0].headers, "To"))
    ensures email != "" && |ms| > 0 && AddressedTo(ms[0], email) ==>
              var recent := WithinWindow(lib.parseDate(HeaderOr(ms[0].headers, "Date", "Unknown Date")), now);
              var read := FirstHtmlRead(ms[0].parts, lib.base64);
              && (r == Refused(LinkExpired) <==> !recent)
              && (r == Refused(ServerError) <==> recent && read.Crashed?)
              && (r == Refused(NoContent) <==> recent && read == Decoded(""))
              && (r.Delivered? <==> recent && read.Decoded? && read.text != "")
    ensures r.Delivered? ==>
              && r.from == HeaderOr(ms[0].headers, "From", "Unknown Sender")
              && r.subject == HeaderOr(ms[0].headers, "Subject", "No Subject")
  {
    if email == "" then Refused(EmailRequired)
    else if |ms| == 0 then Refused(NoRelevantEmail)
    else
      var m := ms[0];
      var to := HeaderValue(m.headers, "To");
      if !Truthy(to) then Refused(NoRecipient)
      else if BareAddress(to.value) != email then Refused(Unauthorized)
      else
        var subject := HeaderOr(m.headers, "Subject", "No Subject");
        var from := HeaderOr(m.headers, "From", "Unknown Sender");
        var dateHeader := HeaderOr(m.headers, "Date", "Unknown Date");
        if !WithinWindow(lib.parseDate(dateHeader), now) then Refused(LinkExpired)
        else
          match FirstHtmlRead(m.parts, lib.base64)
          case Crashed => Refused(ServerError)
          case Decoded(body) =>
            if body == "" then Refused(NoContent)
            else Delivered(email, from, subject, dateHeader, CleanedWith(body, UnwantedContent))
  }

  /** A mail without a `Date` header is never refused as expired: the
      fallback text `Unknown Date` does not parse, and an unparsable date
      passes the age check. */
  lemma MissingDateNeverExpires(email: string, ms: seq<Message>, now: int, lib: Library)
    requires |ms| > 0 && !Truthy(HeaderValue(ms[0].headers, "Date"))
    requires lib.parseDate("Unknown Date") == None
    ensures Respond(email, ms, now, lib) != Refused(LinkExpired)
  {
    assert HeaderOr(ms[0].headers, "Date", "Unknown Date") == "Unknown Date";
    assert !(lib.parseDate(HeaderOr(ms[0].headers, "Date", "Unknown Date"))).Some?;
  }

  /** The handler: the e-mail check and the search, then the newest message. */
  method GetHouseholdNetflixEmail(email: string, lib: Library, now: int) returns (r: Reply)
    ensures r == Respond(email, lib.search(Query), now, lib)
  {
    if email == "" {
      return Refused(EmailRequired);
    }
    var ms := lib.search(Query);
    r := AnswerWith(email, ms, now, lib);
  }

  /** The handler's steps after the search, with its part loop and the
      clean-up loop. */
  method AnswerWith(email: string, ms: seq<Message>, now: int, lib: Library) returns (r: Reply)
    requires email != ""
    ensures r == Respond(email, ms, now, lib)
  {
    if |ms| == 0 {
      return Refused(NoRelevantEmail);
    }
    var message := ms[0];
    var to := HeaderValue(message.headers, "To");
    if !Truthy(to) {
      return Refused(NoRecipient);
    }
    if BareAddress(to.value) != email {
      return Refused(Unauthorized);
    }
    var subject := HeaderOr(message.headers, "Subject", "No Subject");
    var from := HeaderOr(message.headers, "From", "Unknown Sender");
    var dateHeader := HeaderOr(message.headers, "Date", "Unknown Date");
    var date := lib.parseDate(dateHeader);
    if date.Some? && now - date.value > FifteenMinutes {
      return Refused(LinkExpired);
    }
    var read := ReadFirstHtmlPart(message.parts, lib.base64);
    if read.Crashed? {
      return Refused(ServerError);
    }
    if read.text == "" {
      return Refused(NoContent);
    }
    var cleaned := CleanBody(read.text, UnwantedContent);
    r := Delivered(email, from, subject, dateHeader, cleaned);
  }
}
