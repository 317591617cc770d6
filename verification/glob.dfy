/** Globs and the regular expressions they become (src/common/util/ities.h). */
module Globs {
  import opened Options

  // ---------------------------------------------------------------------------
  // The translation

  const WHITESPACE := "\t\n\U{000B}\U{000C}\r "

  function LeftTrim(s: string): string {
    if s != [] && s[0] in WHITESPACE then LeftTrim(s[1..]) else s
  }

  function RightTrim(s: string): string {
    if s != [] && s[|s| - 1] in WHITESPACE then RightTrim(s[..|s| - 1]) else s
  }

  function Trim(s: string): string {
    LeftTrim(RightTrim(s))
  }

  lemma {:induction false} LeftTrimSplits(s: string) returns (a: string)
    ensures s == a + LeftTrim(s) && forall i :: 0 <= i < |a| ==> a[i] in WHITESPACE
    ensures LeftTrim(s) != [] ==> LeftTrim(s)[0] !in WHITESPACE && LeftTrim(s)[|LeftTrim(s)| - 1] == s[|s| - 1]
  {
    if s != [] && s[0] in WHITESPACE {
      var rest := LeftTrimSplits(s[1..]);
      a := [s[0]] + rest;
    } else {
      a := [];
    }
  }

  lemma {:induction false} RightTrimKeeps(s: string) returns (n: nat)
    ensures n <= |s| && RightTrim(s) == s[..n] && forall i :: n <= i < |s| ==> s[i] in WHITESPACE
    ensures n > 0 ==> s[n - 1] !in WHITESPACE
  {
    n := |s|;
    if s != [] && s[|s| - 1] in WHITESPACE {
      n := RightTrimKeeps(s[..|s| - 1]);
      assert s[..|s| - 1][..n] == s[..n];
    }
  }

  lemma RightTrimSplits(s: string) returns (b: string)
    ensures s == RightTrim(s) + b && forall i :: 0 <= i < |b| ==> b[i] in WHITESPACE
    ensures RightTrim(s) != [] ==> RightTrim(s)[|RightTrim(s)| - 1] !in WHITESPACE
  {
    hide RightTrim;
    var n := RightTrimKeeps(s);
    b := s[n..];
  }

  /** What is trimmed off at both ends: blanks, tabs and the like, all of them and nothing else. */
  lemma TrimSplits(s: string) returns (a: string, b: string)
    ensures s == a + Trim(s) + b
    ensures forall c :: c in a + b ==> c in "\t\n\U{000B}\U{000C}\r "
    ensures Trim(s) != [] ==>
      Trim(s)[0] !in "\t\n\U{000B}\U{000C}\r " && Trim(s)[|Trim(s)| - 1] !in "\t\n\U{000B}\U{000C}\r "
  {
    b := RightTrimSplits(s);
    a := LeftTrimSplits(RightTrim(s));
    assert RightTrim(s) + b == a + Trim(s) + b;
    forall c | c in a + b ensures c in "\t\n\U{000B}\U{000C}\r " { assert c in a || c in b; }
  }

  predicate IsRegexMeta(c: char) {
    c in ".(){}+^$|"
  }

  /** What is emitted for the rest of a glob; prev is the character before it. */
  function Translate(val: string, prev: char, inCharacterClass: bool, inQuote: bool): string
    decreases |val|
  {
    if val == [] then []
    else
      var c, rest := val[0], val[1..];
      if inCharacterClass then [c] + Translate(rest, c, c != ']' || prev == '\\', inQuote)
      else if inQuote then [c] + Translate(rest, c, false, false)
      else if c == '\\' then [c] + Translate(rest, c, false, true)
      else if c == '[' then
        if rest != [] && rest[0] == '!' then "[^" + Translate(rest[1..], '!', true, false)
        else "[" + Translate(rest, c, true, false)
      else if IsRegexMeta(c) then ['\\', c] + Translate(rest, c, false, false)
      else if c == '?' then "[^.]" + Translate(rest, c, false, false)
      else if c == '*' then
        if rest != [] && rest[0] == '*' then ".*" + Translate(rest[1..], '*', false, false)
        else "[^.]*" + Translate(rest, c, false, false)
      else [c] + Translate(rest, c, false, false)
  }

  function RegexOf(glob: string): string {
    "^" + Translate(Trim(glob), '^', false, false) + "$"
  }

  method GlobToRegex(glob: string) returns (oss: string)
    ensures oss == RegexOf(glob)
  {
    var val := Trim(glob);
    oss := "^";
    var inCharacterClass, inQuote := false, false;
    var idx, prev := 0, '^';
    while idx < |val|
      invariant idx <= |val| && (idx > 0 ==> prev == val[idx - 1]) && (inCharacterClass ==> !inQuote && idx > 0)
      invariant "^" + Translate(val, '^', false, false) == oss + Translate(val[idx..], prev, inCharacterClass, inQuote)
    {
      ghost var todo := Translate(val[idx..], prev, inCharacterClass, inQuote);
      var c := val[idx];
      assert val[idx..][0] == c && val[idx..][1..] == val[idx + 1..];
      var out := [c];
      if inCharacterClass {
        inCharacterClass := c != ']' || val[idx - 1] == '\\';
      } else if inQuote {
        inQuote := false;
      } else if c == '\\' {
        inQuote := true;
      } else if c == '[' {
        inCharacterClass := true;
        if idx + 1 < |val| && val[idx + 1] == '!' {
          out := "[^";
          idx := idx + 1;
          assert val[idx..][1..] == val[idx + 1..];
        }
      } else if IsRegexMeta(c) {
        out := ['\\', c];
      } else if c == '?' {
        out := "[^.]";
      } else if c == '*' {
        if idx + 1 < |val| && val[idx + 1] == '*' {
          idx := idx + 1;
          out := ".*";
          assert val[idx..][1..] == val[idx + 1..];
        } else {
          out := "[^.]*";
        }
      }
      prev := val[idx];
      idx := idx + 1;
      assert todo == out + Translate(val[idx..], prev, inCharacterClass, inQuote);
      Regroup(oss, out, Translate(val[idx..], prev, inCharacterClass, inQuote));
      oss := oss + out;
    }
    oss := oss + "$";
  }

  lemma Regroup(a: string, b: string, c: string)
    ensures a + (b + c) == (a + b) + c
  {
  }

  // ---------------------------------------------------------------------------
  // Globs as a reader means them

  datatype ClassItem = One(c: char) | Span(lo: char, hi: char)

  datatype Token =
    | Literal(c: char)
    | Quoted(c: char)                                   // a backslash and a punctuation character
    | AnyChar                                           // ?
    | Star                                              // *
    | DoubleStar                                        // **
    | Class(negated: bool, items: seq<ClassItem>)       // [a-z] or [!a-z]

  /** A character that stands for itself in a class. */
  predicate PlainInClass(c: char) {
    c !in "\\]^[-!\n\r"
  }

  predicate PlainItem(item: ClassItem) {
    match item
    case One(c) => PlainInClass(c)
    case Span(lo, hi) => PlainInClass(lo) && PlainInClass(hi) && lo <= hi
  }

  predicate IsPunctuation(c: char) {
    c in "!\"#$%&'()*+,-./:;<=>?@[\\]^`{|}~"
  }

  predicate WellFormedToken(t: Token) {
    match t
    case Literal(c) => c !in "\\[]?*\n\r"
    case Quoted(c) => IsPunctuation(c)
    case Class(_, items) => items != [] && forall i :: 0 <= i < |items| ==> PlainItem(items[i])
    case _ => true
  }

  /** A single star is not followed by another one: two in a row are the double star. */
  predicate WellFormed(ts: seq<Token>) {
    && (forall i :: 0 <= i < |ts| ==> WellFormedToken(ts[i]))
    && (forall i :: 0 <= i < |ts| - 1 && ts[i] == Star ==> ts[i + 1] != Star && ts[i + 1] != DoubleStar)
  }

  function ItemText(item: ClassItem): string {
    match item case One(c) => [c] case Span(lo, hi) => [lo, '-', hi]
  }

  function ItemsText(items: seq<ClassItem>): string {
    if items == [] then [] else ItemText(items[0]) + ItemsText(items[1..])
  }

  function TokenText(t: Token): string {
    match t
    case Literal(c) => [c]
    case Quoted(c) => ['\\', c]
    case AnyChar => "?"
    case Star => "*"
    case DoubleStar => "**"
    case Class(negated, items) => (if negated then "[!" else "[") + ItemsText(items) + "]"
  }

  /** The text of a glob. */
  function GlobText(ts: seq<Token>): string {
    if ts == [] then [] else TokenText(ts[0]) + GlobText(ts[1..])
  }

  predicate InItem(item: ClassItem, c: char) {
    match item case One(x) => c == x case Span(lo, hi) => lo <= c <= hi
  }

  predicate InClass(negated: bool, items: seq<ClassItem>, c: char) {
    (exists i :: 0 <= i < |items| && InItem(items[i], c)) != negated
  }

  /** The first n characters contain no hierarchy delimiter. */
  predicate StaysInLevel(s: string, n: nat)
    requires n <= |s|
  {
    forall i :: 0 <= i < n ==> s[i] != '.'
  }

  /** What a glob matches: a star is any number of characters within a level, a double star any number at all. */
  predicate Matches(ts: seq<Token>, s: string)
    decreases |ts|
  {
    if ts == [] then s == []
    else
      match ts[0]
      case Literal(c) => s != [] && s[0] == c && Matches(ts[1..], s[1..])
      case Quoted(c) => s != [] && s[0] == c && Matches(ts[1..], s[1..])
      case AnyChar => s != [] && s[0] != '.' && Matches(ts[1..], s[1..])
      case Star => exists n :: 0 <= n <= |s| && StaysInLevel(s, n) && Matches(ts[1..], s[n..])
      case DoubleStar => exists n :: 0 <= n <= |s| && Matches(ts[1..], s[n..])
      case Class(negated, items) => s != [] && InClass(negated, items, s[0]) && Matches(ts[1..], s[1..])
  }

  /** A character of a class: one that is listed, or in a span that is. */
  predicate Listed(items: seq<ClassItem>, c: char) {
    exists i :: 0 <= i < |items| && (items[i] == One(c) || (items[i].Span? && items[i].lo <= c <= items[i].hi))
  }

  lemma InClassIsListed(negated: bool, items: seq<ClassItem>, c: char)
    ensures InClass(negated, items, c) <==> if negated then !Listed(items, c) else Listed(items, c)
  {
    forall i | 0 <= i < |items|
      ensures InItem(items[i], c) <==> items[i] == One(c) || (items[i].Span? && items[i].lo <= c <= items[i].hi)
    {
    }
  }

  /** Any tokens make a glob, in any order, but for a single star before another star. */
  lemma GlobsJoin(ts: seq<Token>, us: seq<Token>)
    requires WellFormed(ts) && WellFormed(us)
    requires ts == [] || us == [] || ts[|ts| - 1] != Star || us[0] !in [Star, DoubleStar]
    ensures WellFormed(ts + us)
    ensures WellFormed([]) && WellFormed([AnyChar]) && WellFormed([Star]) && WellFormed([DoubleStar])
  {
    var all := ts + us;
    forall i | 0 <= i < |all| ensures all[i] == if i < |ts| then ts[i] else us[i - |ts|] {}
  }

  /** What each token matches, character by character. */
  lemma TokenMatches(t: Token, s: string)
    ensures Matches([t], s) <==> match t
      case Literal(c) => s == [c]
      case Quoted(c) => s == [c]
      case AnyChar => |s| == 1 && s[0] != '.'
      case Star => forall i :: 0 <= i < |s| ==> s[i] != '.'
      case DoubleStar => true
      case Class(negated, items) => |s| == 1 && (negated <==> !Listed(items, s[0]))
  {
    assert [t][1..] == [] && s[|s|..] == [];
    match t
    case Star => assert Matches([], s[|s|..]);
    case DoubleStar => assert Matches([], s[|s|..]);
    case Class(negated, items) => if s != [] { InClassIsListed(negated, items, s[0]); }
    case _ =>
  }

  /** The empty glob matches the empty string, and any other one what can be split into a part for its first token and
    a part for the rest. */
  lemma PartsMatch(t: Token, us: seq<Token>, s: string)
    ensures Matches([], s) <==> s == []
    ensures Matches([t] + us, s) <==> exists n :: 0 <= n <= |s| && Matches([t], s[..n]) && Matches(us, s[n..])
  {
    var ts := [t] + us;
    assert ts[1..] == us && ts[0] == t;
    if Matches(ts, s) {
      var n := FirstPart(t, us, s);
      TokenMatches(t, s[..n]);
    }
    if n :| 0 <= n <= |s| && Matches([t], s[..n]) && Matches(us, s[n..]) {
      TokenMatches(t, s[..n]);
      match t
      case Star => assert StaysInLevel(s, n) by { assert forall i :: 0 <= i < n ==> s[i] == s[..n][i]; }
      case DoubleStar =>
      case _ => assert n == 1 && s[..n][0] == s[0];
    }
  }

  lemma FirstPart(t: Token, us: seq<Token>, s: string) returns (n: nat)
    requires Matches([t] + us, s)
    ensures n <= |s| && Matches([t], s[..n]) && Matches(us, s[n..])
  {
    assert ([t] + us)[1..] == us;
    match t
    case Star =>
      n :| 0 <= n <= |s| && StaysInLevel(s, n) && Matches(us, s[n..]);
      TokenMatches(t, s[..n]);
    case DoubleStar =>
      n :| 0 <= n <= |s| && Matches(us, s[n..]);
      TokenMatches(t, s[..n]);
    case Class(negated, items) =>
      n := 1;
      InClassIsListed(negated, items, s[0]);
      TokenMatches(t, s[..1]);
    case _ =>
      n := 1;
      TokenMatches(t, s[..1]);
  }

  // ---------------------------------------------------------------------------
  // The part of ECMAScript's regular expressions that is emitted

  datatype Atom = Char(c: char) | Dot | Set(negated: bool, items: seq<ClassItem>)
  datatype Term = Single(atom: Atom) | Repeated(atom: Atom)

  predicate IsLineEnd(c: char) {
    c == '\n' || c == '\r'
  }

  predicate AtomMatches(a: Atom, c: char) {
    match a
    case Char(x) => c == x
    case Dot => !IsLineEnd(c)
    case Set(negated, items) => InClass(negated, items, c)
  }

  /** Whether the terms match the whole string. */
  predicate RegexMatches(terms: seq<Term>, s: string)
    decreases |terms|, |s|
  {
    if terms == [] then s == []
    else match terms[0]
      case Single(a) => s != [] && AtomMatches(a, s[0]) && RegexMatches(terms[1..], s[1..])
      case Repeated(a) =>
        RegexMatches(terms[1..], s) || (s != [] && AtomMatches(a, s[0]) && RegexMatches(terms, s[1..]))
  }

  predicate IsSyntaxCharacter(c: char) {
    c in "^$\\.*+?()[]{}|"
  }

  /** The items of a class up to its closing bracket, and what follows it. */
  function ParseItems(text: string): Option<(seq<ClassItem>, string)> {
    if text == [] || text[0] in "\\^[" then None
    else if text[0] == ']' then Some(([], text[1..]))
    else if |text| >= 3 && text[1] == '-' && text[2] != ']' then
      if text[0] <= text[2] then
        match ParseItems(text[3..])
        case None => None
        case Some((items, rest)) => Some(([Span(text[0], text[2])] + items, rest))
      else None
    else match ParseItems(text[1..]) case None => None case Some((items, rest)) => Some(([One(text[0])] + items, rest))
  }

  function ParseAtom(text: string): (r: Option<(Atom, string)>)
    ensures r.Some? ==> |r.value.1| < |text|
  {
    if text == [] then None
    else if text[0] == '\\' then
      if |text| >= 2 && IsPunctuation(text[1]) then Some((Char(text[1]), text[2..])) else None
    else if text[0] == '.' then Some((Dot, text[1..]))
    else if text[0] == '[' then
      var negated := |text| >= 2 && text[1] == '^';
      (match ParseItems(if negated then text[2..] else text[1..])
       case None => None
       case Some((items, rest)) => if |rest| < |text| then Some((Set(negated, items), rest)) else None)
    else if IsSyntaxCharacter(text[0]) then None
    else Some((Char(text[0]), text[1..]))
  }

  /** The terms up to the final anchor. */
  function ParseTerms(text: string): Option<seq<Term>>
    decreases |text|
  {
    if text == "$" then Some([])
    else match ParseAtom(text)
      case None => None
      case Some((atom, rest)) =>
        if rest != [] && rest[0] == '*' then
          match ParseTerms(rest[1..]) case None => None case Some(terms) => Some([Repeated(atom)] + terms)
        else
          match ParseTerms(rest) case None => None case Some(terms) => Some([Single(atom)] + terms)
  }

  /** An anchored expression. */
  function ParseRegex(text: string): Option<seq<Term>> {
    if text != [] && text[0] == '^' then ParseTerms(text[1..]) else None
  }

  // ---------------------------------------------------------------------------
  // The translation preserves meaning

  function AtomOf(t: Token): Atom {
    match t
    case Literal(c) => Char(c)
    case Quoted(c) => Char(c)
    case AnyChar => Set(true, [One('.')])
    case Star => Set(true, [One('.')])
    case DoubleStar => Dot
    case Class(negated, items) => Set(negated, items)
  }

  function TermOf(t: Token): Term {
    if t.Star? || t.DoubleStar? then Repeated(AtomOf(t)) else Single(AtomOf(t))
  }

  function TermsOf(ts: seq<Token>): seq<Term> {
    if ts == [] then [] else [TermOf(ts[0])] + TermsOf(ts[1..])
  }

  function AtomText(t: Token): string {
    match t
    case Literal(c) => if IsRegexMeta(c) then ['\\', c] else [c]
    case Quoted(c) => ['\\', c]
    case AnyChar => "[^.]"
    case Star => "[^.]"
    case DoubleStar => "."
    case Class(negated, items) => (if negated then "[^" else "[") + (ItemsText(items) + "]")
  }

  function TermText(t: Token): string {
    AtomText(t) + if t.Star? || t.DoubleStar? then "*" else ""
  }

  function TermsText(ts: seq<Token>): string {
    if ts == [] then [] else TermText(ts[0]) + TermsText(ts[1..])
  }

  /** A character of a class other than its closing bracket. */
  predicate InsideClass(text: string) {
    forall i :: 0 <= i < |text| ==> text[i] != ']' && text[i] != '\\'
  }

  lemma {:induction false} ItemsInside(items: seq<ClassItem>)
    requires forall i :: 0 <= i < |items| ==> PlainItem(items[i])
    ensures InsideClass(ItemsText(items))
    ensures items != [] ==> ItemsText(items) != [] && PlainInClass(ItemsText(items)[0])
  {
    if items != [] { ItemsInside(items[1..]); }
  }

  /** A class is copied up to its closing bracket. */
  lemma {:induction false} ClassCopied(text: string, rest: string, prev: char)
    requires InsideClass(text) && prev != '\\'
    ensures Translate(text + ("]" + rest), prev, true, false) == text + ("]" + Translate(rest, ']', false, false))
  {
    if text == [] {
      assert text + ("]" + rest) == "]" + rest && ("]" + rest)[1..] == rest;
    } else {
      assert (text + ("]" + rest))[1..] == text[1..] + ("]" + rest);
      ClassCopied(text[1..], rest, text[0]);
    }
  }

  lemma OpensClass(rest: string, prev: char)
    requires rest != [] && rest[0] != '!'
    ensures Translate("[" + rest, prev, false, false) == "[" + Translate(rest, '[', true, false)
  {
    assert ("[" + rest)[1..] == rest;
  }

  lemma OpensNegatedClass(rest: string, prev: char)
    ensures Translate("[!" + rest, prev, false, false) == "[^" + Translate(rest, '!', true, false)
  {
    var whole := "[!" + rest;
    assert whole[1..][0] == '!' && whole[1..][1..] == rest;
  }

  lemma ClassTranslated(negated: bool, items: seq<ClassItem>, rest: string, prev: char)
    requires WellFormedToken(Class(negated, items))
    ensures Translate(TokenText(Class(negated, items)) + rest, prev, false, false)
      == TermText(Class(negated, items)) + Translate(rest, ']', false, false)
  {
    hide Translate, ItemsText, PlainItem, InsideClass;
    var text := ItemsText(items);
    ItemsInside(items);
    var opening, replaced := if negated then "[!" else "[", if negated then "[^" else "[";
    var done := Translate(rest, ']', false, false);
    Regroup(opening + text, "]", rest);
    Regroup(opening, text, "]" + rest);
    Regroup(replaced, text + "]", done);
    Regroup(text, "]", done);
    if negated {
      OpensNegatedClass(text + ("]" + rest), prev);
      ClassCopied(text, rest, '!');
    } else {
      OpensClass(text + ("]" + rest), prev);
      ClassCopied(text, rest, '[');
    }
    assert TermText(Class(negated, items)) == replaced + (text + "]");
  }

  lemma TwoCharacters(a: char, b: char, rest: string)
    ensures ([a, b] + rest)[0] == a && ([a, b] + rest)[1..] == [b] + rest && ([b] + rest)[1..] == rest
  {
    assert ([a, b] + rest)[1..] == [b] + rest;
  }

  lemma QuoteTranslated(c: char, rest: string, prev: char)
    ensures Translate(['\\', c] + rest, prev, false, false) == ['\\', c] + Translate(rest, c, false, false)
  {
    TwoCharacters('\\', c, rest);
    assert Translate(['\\', c] + rest, prev, false, false) == ['\\'] + Translate([c] + rest, '\\', false, true);
    assert Translate([c] + rest, '\\', false, true) == [c] + Translate(rest, c, false, false);
  }

  lemma DoubleStarTranslated(rest: string, prev: char)
    ensures Translate("**" + rest, prev, false, false) == ".*" + Translate(rest, '*', false, false)
  {
    TwoCharacters('*', '*', rest);
  }

  lemma CharacterTranslated(t: Token, rest: string, prev: char)
    requires WellFormedToken(t) && (t.Literal? || t.AnyChar? || (t.Star? && (rest == [] || rest[0] != '*')))
    ensures Translate(TokenText(t) + rest, prev, false, false)
      == TermText(t) + Translate(rest, TokenText(t)[0], false, false)
  {
    assert (TokenText(t) + rest)[1..] == rest;
  }

  /** Each token is translated on its own; a single star must not be followed by a star. */
  lemma TokenTranslated(t: Token, rest: string, prev: char)
    requires WellFormedToken(t) && (t.Star? && rest != [] ==> rest[0] != '*')
    ensures exists c ::
      Translate(TokenText(t) + rest, prev, false, false) == TermText(t) + Translate(rest, c, false, false)
  {
    hide Translate;
    match t {
      case Class(negated, items) => ClassTranslated(negated, items, rest, prev);
      case Quoted(c) => QuoteTranslated(c, rest, prev);
      case DoubleStar => DoubleStarTranslated(rest, prev);
      case _ => CharacterTranslated(t, rest, prev);
    }
  }

  lemma {:induction false} GlobTranslated(ts: seq<Token>, prev: char)
    requires WellFormed(ts)
    ensures Translate(GlobText(ts), prev, false, false) == TermsText(ts)
  {
    if ts != [] {
      if ts[0].Star? && ts[1..] != [] { assert TokenText(ts[1])[0] != '*'; }
      TokenTranslated(ts[0], GlobText(ts[1..]), prev);
      var c :| Translate(GlobText(ts), prev, false, false)
        == TermText(ts[0]) + Translate(GlobText(ts[1..]), c, false, false);
      GlobTranslated(ts[1..], c);
    }
  }

  // --- what is emitted parses back

  lemma {:induction false} ItemsParsed(items: seq<ClassItem>, rest: string)
    requires forall i :: 0 <= i < |items| ==> PlainItem(items[i])
    ensures ParseItems(ItemsText(items) + ("]" + rest)) == Some((items, rest))
  {
    hide ParseItems, ItemText, PlainItem;
    if items == [] {
      NoItemsParsed(rest);
    } else {
      ItemsParsed(items[1..], rest);
      ItemsStart(items[1..], rest);
      ItemParsed(items[0], ItemsText(items[1..]) + ("]" + rest), items[1..], rest);
      assert ItemsText(items) + ("]" + rest) == ItemText(items[0]) + (ItemsText(items[1..]) + ("]" + rest));
      assert [items[0]] + items[1..] == items;
      ItemsInside(items[1..]);
    }
  }

  lemma ItemsStart(items: seq<ClassItem>, rest: string)
    requires forall i :: 0 <= i < |items| ==> PlainItem(items[i])
    ensures var text := ItemsText(items) + ("]" + rest); text != [] && text[0] != '-'
  {
  }

  lemma NoItemsParsed(rest: string)
    ensures ParseItems(ItemsText([]) + ("]" + rest)) == Some(([], rest))
  {
    assert ItemsText([]) + ("]" + rest) == "]" + rest && ("]" + rest)[1..] == rest;
  }

  lemma ItemParsed(item: ClassItem, tail: string, items: seq<ClassItem>, rest: string)
    requires PlainItem(item) && ParseItems(tail) == Some((items, rest)) && tail != [] && tail[0] != '-'
    ensures ParseItems(ItemText(item) + tail) == Some(([item] + items, rest))
  {
    var text := ItemText(item) + tail;
    match item {
      case One(c) => assert text[1..] == tail;
      case Span(lo, hi) => assert text[3..] == tail;
    }
  }

  lemma ClassParsed(negated: bool, items: seq<ClassItem>, rest: string)
    requires WellFormedToken(Class(negated, items))
    ensures ParseAtom((if negated then "[^" else "[") + (ItemsText(items) + "]") + rest)
      == Some((Set(negated, items), rest))
  {
    var tail := ItemsText(items) + ("]" + rest);
    ItemsParsed(items, rest);
    ItemsInside(items);
    hide ParseItems, ItemsText;
    if negated {
      assert "[^" + (ItemsText(items) + "]") + rest == "[^" + tail;
      TwoCharacters('[', '^', tail);
      assert ("[^" + tail)[2..] == tail;
    } else {
      assert "[" + (ItemsText(items) + "]") + rest == "[" + tail;
      assert ("[" + tail)[1..] == tail;
    }
  }

  lemma NoDotParsed(rest: string)
    ensures ParseAtom("[^.]" + rest) == Some((Set(true, [One('.')]), rest))
  {
    ClassParsed(true, [One('.')], rest);
    var items := [One('.')];
    assert items[1..] == [] && ItemsText(items) == "." + "";
    assert "[^" + (ItemsText(items) + "]") == "[^.]";
  }

  lemma AtomParsed(t: Token, rest: string)
    requires WellFormedToken(t)
    ensures ParseAtom(AtomText(t) + rest) == Some((AtomOf(t), rest))
  {
    match t {
      case Class(negated, items) => ClassParsed(negated, items, rest);
      case AnyChar => NoDotParsed(rest);
      case Star => NoDotParsed(rest);
      case DoubleStar => assert ("." + rest)[1..] == rest;
      case Quoted(c) => assert (['\\', c] + rest)[2..] == rest;
      case Literal(c) =>
        if IsRegexMeta(c) { assert (['\\', c] + rest)[2..] == rest; } else { assert ([c] + rest)[1..] == rest; }
    }
  }

  lemma AtomStarts(t: Token)
    requires WellFormedToken(t)
    ensures AtomText(t) != [] && AtomText(t)[0] != '$'
  {
  }

  lemma TermParsed(t: Token, rest: string, terms: seq<Term>)
    requires WellFormedToken(t) && rest != [] && rest[0] != '*' && ParseTerms(rest) == Some(terms)
    ensures ParseTerms(TermText(t) + rest) == Some([TermOf(t)] + terms)
  {
    hide ParseAtom, WellFormedToken, AtomText;
    var text := TermText(t) + rest;
    AtomStarts(t);
    if t.Star? || t.DoubleStar? {
      assert text == AtomText(t) + ("*" + rest) && ("*" + rest)[1..] == rest;
      AtomParsed(t, "*" + rest);
    } else {
      assert text == AtomText(t) + rest;
      AtomParsed(t, rest);
    }
  }

  lemma {:induction false} TermsParsed(ts: seq<Token>)
    requires WellFormed(ts)
    ensures TermsText(ts) + "$" != [] && (TermsText(ts) + "$")[0] != '*'
    ensures ParseTerms(TermsText(ts) + "$") == Some(TermsOf(ts))
  {
    hide ParseTerms, TermText, AtomText;
    if ts == [] {
      EndParsed();
    } else {
      TermsParsed(ts[1..]);
      TermParsed(ts[0], TermsText(ts[1..]) + "$", TermsOf(ts[1..]));
      assert TermsText(ts) + "$" == TermText(ts[0]) + (TermsText(ts[1..]) + "$");
      TermStarts(ts[0]);
    }
  }

  lemma EndParsed()
    ensures TermsText([]) + "$" == "$" && ParseTerms("$") == Some([])
  {
  }

  lemma TermStarts(t: Token)
    requires WellFormedToken(t)
    ensures TermText(t) != [] && TermText(t)[0] != '*'
  {
  }

  // --- and means the same

  lemma {:induction false} NoDotMatches(c: char)
    ensures AtomMatches(Set(true, [One('.')]), c) <==> c != '.'
  {
    var items := [One('.')];
    assert InItem(items[0], c) <==> c == '.';
  }

  /** A repeated atom may take the first n characters. */
  predicate Takes(a: Atom, terms: seq<Term>, s: string, n: nat) {
    n <= |s| && (forall c :: c in s[..n] ==> AtomMatches(a, c)) && RegexMatches(terms, s[n..])
  }

  lemma TakesMore(a: Atom, terms: seq<Term>, s: string, n: nat)
    requires s != []
    ensures Takes(a, terms, s, n + 1) <==> AtomMatches(a, s[0]) && Takes(a, terms, s[1..], n)
  {
    hide AtomMatches, RegexMatches;
    if n + 1 <= |s| {
      assert s[1..][n..] == s[n + 1..];
      assert s[..n + 1] == [s[0]] + s[1..][..n];
    }
  }

  /** It takes any number of matching characters. */
  lemma {:induction false} RepeatedMatches(a: Atom, terms: seq<Term>, s: string)
    ensures RegexMatches([Repeated(a)] + terms, s) <==> exists n :: Takes(a, terms, s, n)
    decreases |s|
  {
    hide AtomMatches, Takes;
    var all := [Repeated(a)] + terms;
    assert all[1..] == terms;
    assert Takes(a, terms, s, 0) <==> RegexMatches(terms, s) by { TakesNone(a, terms, s); }
    if s == [] {
      forall n | Takes(a, terms, s, n) ensures n == 0 { TakesFits(a, terms, s, n); }
    } else {
      RepeatedMatches(a, terms, s[1..]);
      forall n: nat ensures Takes(a, terms, s, n + 1) <==> AtomMatches(a, s[0]) && Takes(a, terms, s[1..], n) {
        TakesMore(a, terms, s, n);
      }
      if n: nat :| Takes(a, terms, s, n) && n > 0 { TakesMore(a, terms, s, n - 1); }
      if n: nat :| Takes(a, terms, s[1..], n) && AtomMatches(a, s[0]) { TakesMore(a, terms, s, n); }
    }
  }

  lemma TakesNone(a: Atom, terms: seq<Term>, s: string)
    ensures Takes(a, terms, s, 0) <==> RegexMatches(terms, s)
  {
    assert s[0..] == s;
  }

  lemma TakesEach(a: Atom, s: string, n: nat)
    requires n <= |s|
    ensures (forall c :: c in s[..n] ==> AtomMatches(a, c)) <==> forall i :: 0 <= i < n ==> AtomMatches(a, s[i])
  {
    hide AtomMatches;
    assert forall i :: 0 <= i < n ==> s[..n][i] == s[i];
  }

  lemma TakesFits(a: Atom, terms: seq<Term>, s: string, n: nat)
    requires Takes(a, terms, s, n)
    ensures n <= |s|
  {
  }

  /** The first n characters contain no line end. */
  predicate StaysInLine(s: string, n: nat)
    requires n <= |s|
  {
    forall i :: 0 <= i < n ==> !IsLineEnd(s[i])
  }

  /** What a glob matches when a double star cannot cross the end of a line. */
  predicate MatchesInLine(ts: seq<Token>, s: string)
    decreases |ts|
  {
    if ts == [] then s == []
    else
      match ts[0]
      case Literal(c) => s != [] && s[0] == c && MatchesInLine(ts[1..], s[1..])
      case Quoted(c) => s != [] && s[0] == c && MatchesInLine(ts[1..], s[1..])
      case AnyChar => s != [] && s[0] != '.' && MatchesInLine(ts[1..], s[1..])
      case Star => exists n :: 0 <= n <= |s| && StaysInLevel(s, n) && MatchesInLine(ts[1..], s[n..])
      case DoubleStar => exists n :: 0 <= n <= |s| && StaysInLine(s, n) && MatchesInLine(ts[1..], s[n..])
      case Class(negated, items) => s != [] && InClass(negated, items, s[0]) && MatchesInLine(ts[1..], s[1..])
  }

  /** The emitted expression means the glob, but for line ends, on every string. */
  lemma {:induction false} SameMeaning(ts: seq<Token>, s: string)
    ensures RegexMatches(TermsOf(ts), s) <==> MatchesInLine(ts, s)
    decreases |ts|
  {
    if ts != [] {
      var rest := TermsOf(ts[1..]);
      assert TermsOf(ts) == [TermOf(ts[0])] + rest && TermsOf(ts)[1..] == rest;
      forall n | 0 <= n <= |s| ensures RegexMatches(rest, s[n..]) <==> MatchesInLine(ts[1..], s[n..]) {
        SameMeaning(ts[1..], s[n..]);
      }
      match ts[0] {
        case Star => StarMeans(rest, s);
        case DoubleStar => DoubleStarMeans(rest, s);
        case AnyChar => if s != [] { NoDotMatches(s[0]); }
        case _ =>
      }
    }
  }

  lemma StarMeans(rest: seq<Term>, s: string)
    ensures RegexMatches([TermOf(Star)] + rest, s) <==>
      exists n :: 0 <= n <= |s| && StaysInLevel(s, n) && RegexMatches(rest, s[n..])
  {
    RepeatedMatches(AtomOf(Star), rest, s);
    forall n: nat
      ensures Takes(AtomOf(Star), rest, s, n) <==> n <= |s| && StaysInLevel(s, n) && RegexMatches(rest, s[n..])
    {
      if n <= |s| { TakesEach(AtomOf(Star), s, n); }
      forall i | 0 <= i < |s| ensures AtomMatches(AtomOf(Star), s[i]) <==> s[i] != '.' { NoDotMatches(s[i]); }
    }
  }

  lemma DoubleStarMeans(rest: seq<Term>, s: string)
    ensures RegexMatches([TermOf(DoubleStar)] + rest, s) <==>
      exists n :: 0 <= n <= |s| && StaysInLine(s, n) && RegexMatches(rest, s[n..])
  {
    RepeatedMatches(Dot, rest, s);
    forall n: nat
      ensures Takes(Dot, rest, s, n) <==> n <= |s| && StaysInLine(s, n) && RegexMatches(rest, s[n..])
    {
      if n <= |s| { TakesEach(Dot, s, n); }
    }
  }

  /** The emitted expression is one that can be parsed, and matches exactly what the glob does, line ends apart. */
  lemma GlobPreserved(glob: string, ts: seq<Token>, s: string)
    requires WellFormed(ts) && Trim(glob) == GlobText(ts)
    ensures ParseRegex(RegexOf(glob)) == Some(TermsOf(ts))
    ensures RegexMatches(TermsOf(ts), s) <==> MatchesInLine(ts, s)
    ensures DoubleStar !in ts || (forall i :: 0 <= i < |s| ==> s[i] != '\n' && s[i] != '\r') ==>
      (RegexMatches(TermsOf(ts), s) <==> Matches(ts, s))
  {
    hide Translate, Trim, GlobText, TermsText, TermsOf, ParseTerms, RegexMatches, Matches, MatchesInLine,
      WellFormedToken;
    GlobTranslated(ts, '^');
    TermsParsed(ts);
    assert RegexOf(glob)[1..] == TermsText(ts) + "$";
    SameMeaning(ts, s);
    InLineIsMatch(ts, s);
  }

  lemma {:induction false} InLineIsMatch(ts: seq<Token>, s: string)
    ensures MatchesInLine(ts, s) ==> Matches(ts, s)
    ensures DoubleStar !in ts || StaysInLine(s, |s|) ==> (MatchesInLine(ts, s) <==> Matches(ts, s))
    decreases |ts|
  {
    if ts != [] {
      forall n | 0 <= n <= |s|
        ensures MatchesInLine(ts[1..], s[n..]) ==> Matches(ts[1..], s[n..])
        ensures DoubleStar !in ts || StaysInLine(s, |s|) ==>
          (MatchesInLine(ts[1..], s[n..]) <==> Matches(ts[1..], s[n..]))
      {
        InLineIsMatch(ts[1..], s[n..]);
      }
    }
  }

  // --- when a whole glob is safe from line ends

  /** A class that no character is in: a negated one can list them all. */
  ghost predicate Barren(t: Token) {
    t.Class? && forall c: char :: !InClass(t.negated, t.items, c)
  }

  ghost predicate AnyBarren(ts: seq<Token>) {
    exists i :: 0 <= i < |ts| && Barren(ts[i])
  }

  /** How often a line end is followed by a hierarchy delimiter. */
  function Pairs(s: string): nat {
    if |s| < 2 then 0 else (if s[0] == '\n' && s[1] == '.' then 1 else 0) + Pairs(s[1..])
  }

  lemma {:induction false} PairsOfRest(s: string, n: nat)
    requires n <= |s|
    ensures Pairs(s[n..]) <= Pairs(s)
    ensures StaysInLevel(s, n) ==> Pairs(s) <= Pairs(s[n..]) + 1
    ensures StaysInLine(s, n) ==> Pairs(s) == Pairs(s[n..])
  {
    if n == 0 {
      assert s[0..] == s;
    } else {
      assert s[1..][n - 1..] == s[n..];
      PairsOfRest(s[1..], n - 1);
    }
  }

  /** Each token takes at most one such pair apart, so what a glob matches within lines has few of them. */
  lemma {:induction false} FewPairs(ts: seq<Token>, s: string)
    requires MatchesInLine(ts, s)
    ensures Pairs(s) <= |ts|
    decreases |ts|
  {
    if ts != [] {
      match ts[0] {
        case Star =>
          var n :| 0 <= n <= |s| && StaysInLevel(s, n) && MatchesInLine(ts[1..], s[n..]);
          PairsOfRest(s, n);
          FewPairs(ts[1..], s[n..]);
        case DoubleStar =>
          var n :| 0 <= n <= |s| && StaysInLine(s, n) && MatchesInLine(ts[1..], s[n..]);
          PairsOfRest(s, n);
          FewPairs(ts[1..], s[n..]);
        case _ =>
          FewPairs(ts[1..], s[1..]);
      }
    }
  }

  function Block(n: nat): string {
    if n == 0 then [] else "\n." + Block(n - 1)
  }

  lemma {:induction false} BlockPairs(n: nat, rest: string)
    ensures Pairs(Block(n) + rest) >= n
  {
    if n > 0 {
      BlockPairs(n - 1, rest);
      var s := Block(n) + rest;
      assert s[1..][1..] == Block(n - 1) + rest;
      PairsOfRest(s[1..], 1);
    }
  }

  /** A glob without a barren class matches something, with as many pairs as one likes at a double star. */
  lemma {:induction false} SomeMatch(ts: seq<Token>, n: nat) returns (s: string)
    requires !AnyBarren(ts)
    ensures Matches(ts, s) && (DoubleStar in ts ==> n <= Pairs(s))
    decreases |ts|
  {
    if ts == [] { return []; }
    assert forall i :: 0 <= i < |ts[1..]| ==> ts[1..][i] == ts[i + 1];
    var rest := SomeMatch(ts[1..], n);
    match ts[0] {
      case Star => s := rest; assert s[0..] == s && StaysInLevel(s, 0);
      case DoubleStar =>
        s := Block(n) + rest;
        assert s[|Block(n)|..] == rest;
        BlockPairs(n, rest);
      case Literal(c) => s := [c] + rest; assert s[1..] == rest; PairsOfRest(s, 1);
      case Quoted(c) => s := [c] + rest; assert s[1..] == rest; PairsOfRest(s, 1);
      case AnyChar => s := "a" + rest; assert s[1..] == rest; PairsOfRest(s, 1);
      case Class(negated, items) =>
        assert !Barren(ts[0]);
        var c :| InClass(negated, items, c);
        s := [c] + rest;
        assert s[1..] == rest;
        PairsOfRest(s, 1);
    }
  }

  lemma {:induction false} BarrenFails(ts: seq<Token>, i: nat, s: string)
    requires i < |ts| && Barren(ts[i])
    ensures !Matches(ts, s)
    decreases i
  {
    if i > 0 {
      assert ts[1..][i - 1] == ts[i];
      forall n | 0 <= n <= |s| ensures !Matches(ts[1..], s[n..]) { BarrenFails(ts[1..], i - 1, s[n..]); }
    }
  }

  /** The emitted expression and the glob agree on all strings exactly when the glob has no double star, or can match
    nothing at all for a class without members. */
  lemma AgreesEverywhere(ts: seq<Token>)
    ensures (forall s :: RegexMatches(TermsOf(ts), s) <==> Matches(ts, s)) <==> DoubleStar !in ts || AnyBarren(ts)
  {
    if DoubleStar in ts && !AnyBarren(ts) {
      var s := SomeMatch(ts, |ts| + 1);
      SameMeaning(ts, s);
      if MatchesInLine(ts, s) { FewPairs(ts, s); }
    } else {
      forall s ensures RegexMatches(TermsOf(ts), s) <==> Matches(ts, s) {
        SameMeaning(ts, s);
        InLineIsMatch(ts, s);
        if i :| 0 <= i < |ts| && Barren(ts[i]) { BarrenFails(ts, i, s); }
      }
    }
  }

  /** A double star does not cross the end of a line, although as a glob it would. */
  lemma LineEndsStopDoubleStar()
    ensures Matches([DoubleStar], "\n") && !RegexMatches(TermsOf([DoubleStar]), "\n")
  {
    var ts, s := [DoubleStar], "\n";
    assert ts[1..] == [] && s[1..] == [] && Matches(ts[1..], s[1..]);
    assert TermsOf(ts) == [Repeated(Dot)] + TermsOf(ts[1..]);
    RepeatedMatches(Dot, [], s);
  }

  /** Which tokens match the hierarchy delimiter: beside itself and the double star, a class does, if it has it as a
    member or is negated and has not. */
  lemma DelimiterMatched(t: Token)
    ensures Matches([t], ".") <==> match t
      case Literal(c) => c == '.'
      case Quoted(c) => c == '.'
      case DoubleStar => true
      case Class(negated, items) => InClass(negated, items, '.')
      case _ => false
  {
    var ts, s := [t], ".";
    assert ts[1..] == [] && s[1..] == [] && s[0..] == s;
    if t.DoubleStar? { assert Matches(ts[1..], s[1..]); }
  }
}
