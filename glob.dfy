/** Translation of a shell glob into the source text of an ECMAScript regular expression,
    as lsdups does before it compiles an include or skip pattern (dups/Source.cpp, `translate`
    and its helper `string_replace`).

    The translator is modelled twice: `Translate` is the character-at-a-time scanner of the
    source, with its look-ahead index and its in-place edits of the class text; `Lex`, `Render`
    and `Body` are the specification it is proved against: the pattern is cut into tokens, and
    the body of the expression is the concatenation of the tokens' translations. The lemmas
    below state what the translation does to each kind of token and how the scanner finds the
    end of a class. */
module Glob {

  datatype Option<T> = None | Some(value: T)

  // ---------------------------------------------------------------------------------------
  // Constants of the translator

  /** Characters that get a backslash in front when they stand outside a class: the reserved
      characters `()[]{}?*+-|^$\.&~#` and the whitespace characters space, tab, newline,
      carriage return, vertical tab and form feed. */
  const SpecialCharacters: string := "()[]{}?*+-|^$\\.&~# \t\n\r\U{B}\U{C}"

  /** The lookup table that the translator fills on its first use: every special character
      maps to itself preceded by a backslash. */
  const SpecialCharactersMap: map<char, string> := map c | c in SpecialCharacters :: ['\\', c]

  /** What the set-operation escaping puts in place of each `&`, `~` and `|` of a class body:
      the format text `\\\1` of the `std::regex_replace` call, taken as written, which is what
      the ECMAScript format rules emit since only `$` is special there. The length bound of
      `EscapeSetOperations` relies on it being non-empty, and `ClassTextLeading` on its
      starting with a backslash (`SetOperationEscapeLeading`). */
  const SetOperationEscape: string := "\\\\\\1"

  /** The replacement for a set operation is non-empty and starts with a backslash. */
  lemma SetOperationEscapeLeading()
    ensures |SetOperationEscape| == 4 && SetOperationEscape[0] == '\\'
  {
  }

  /** The text put before and after the translated body. */
  const Prefix: string := "(("
  const Suffix: string := ")|[\\r\\n])$"

  // ---------------------------------------------------------------------------------------
  // Searching and replacing in strings

  /** `pat` occurs in `s` at position `k`. */
  predicate OccursAt(s: string, pat: string, k: int) {
    0 <= k && k + |pat| <= |s| && s[k..k + |pat|] == pat
  }

  /** `k` is the first position at which `pat` occurs in `s`. */
  predicate FirstOccurrence(s: string, pat: string, k: int) {
    OccursAt(s, pat, k) && forall m :: 0 <= m < k ==> !OccursAt(s, pat, m)
  }

  /** `std::string::find(pat, from)`: the first position at or after `from` where `pat`
      occurs in `s`, or `None` (npos) when there is none. */
  function FindFrom(s: string, pat: string, from: nat): (r: Option<nat>)
    ensures r.Some? ==> from <= r.value && OccursAt(s, pat, r.value)
    ensures forall k :: from <= k && OccursAt(s, pat, k) ==> r.Some? && r.value <= k
    decreases |s| - from
  {
    if from + |pat| > |s| then None
    else if s[from..from + |pat|] == pat then Some(from)
    else FindFrom(s, pat, from + 1)
  }

  /** The outcome of `string_replace`: whether it replaced anything, and the edited string. */
  datatype Replaced = Replaced(found: bool, text: string)

  /** `string_replace(str, from, to)`: replaces the first occurrence of `from` in `str`, and
      only that one, by `to`; reports `false` and leaves `str` as it was when `from` does not
      occur. */
  function StringReplace(str: string, from: string, to: string): (r: Replaced)
    ensures r.found <==> exists k :: OccursAt(str, from, k)
    ensures !r.found ==> r.text == str
    ensures r.found ==>
      exists k :: FirstOccurrence(str, from, k) && r.text == str[..k] + to + str[k + |from|..]
    ensures |r.text| == if r.found then |str| - |from| + |to| else |str|
  {
    match FindFrom(str, from, 0)
    case None => Replaced(false, str)
    case Some(k) =>
      assert FirstOccurrence(str, from, k);
      Replaced(true, str[..k] + to + str[k + |from|..])
  }

  /** Shifts a position found in a suffix back to a position in the whole string. */
  function Shift(r: Option<nat>, d: nat): Option<nat> {
    match r
    case None => None
    case Some(k) => Some(k + d)
  }

  /** Searching `[c] + rest` from position `k + 1` is searching `rest` from `k`. */
  lemma {:induction false} FindFromCons(c: char, rest: string, pat: string, k: nat)
    ensures FindFrom([c] + rest, pat, k + 1) == Shift(FindFrom(rest, pat, k), 1)
    decreases |rest| - k
  {
    var s := [c] + rest;
    if k + 1 + |pat| <= |s| {
      assert s[k + 1..k + 1 + |pat|] == rest[k..k + |pat|];
      if rest[k..k + |pat|] != pat {
        FindFromCons(c, rest, pat, k + 1);
      }
    }
  }

  /** Doubling the first backslash never touches a leading character that is not one. */
  lemma BackslashReplaceCons(c: char, rest: string)
    requires c != '\\'
    ensures StringReplace([c] + rest, "\\", "\\\\").text == [c] + StringReplace(rest, "\\", "\\\\").text
  {
    var s := [c] + rest;
    assert FindFrom(s, "\\", 0) == Shift(FindFrom(rest, "\\", 0), 1) by {
      assert s[0..1] == [c];
      assert FindFrom(s, "\\", 0) == FindFrom(s, "\\", 1);
      FindFromCons(c, rest, "\\", 0);
    }
    match FindFrom(rest, "\\", 0)
    case None =>
    case Some(k) =>
      calc {
        StringReplace(s, "\\", "\\\\").text;
        s[..k + 1] + "\\\\" + s[k + 2..];
        { assert s[..k + 1] == [c] + rest[..k] && s[k + 2..] == rest[k + 1..]; }
        [c] + (rest[..k] + "\\\\" + rest[k + 1..]);
        [c] + StringReplace(rest, "\\", "\\\\").text;
      }
  }

  /** Only the first backslash of a string is doubled: what comes before it holds none, and
      everything after it is left alone, later backslashes included. */
  lemma DoubleFirstBackslashOnly(x: string, y: string)
    requires forall k :: 0 <= k < |x| ==> x[k] != '\\'
    ensures StringReplace(x + "\\" + y, "\\", "\\\\").text == x + "\\\\" + y
  {
    var s := x + "\\" + y;
    assert s[|x|..|x| + 1] == "\\";
    var r := FindFrom(s, "\\", 0);
    assert r == Some(|x|) by {
      assert OccursAt(s, "\\", |x|);
      forall m | 0 <= m < |x|
        ensures !OccursAt(s, "\\", m)
      {
        assert s[m..m + 1][0] == x[m];
      }
    }
    assert s[..|x|] == x && s[|x| + 1..] == y;
  }

  // ---------------------------------------------------------------------------------------
  // The text of a character class

  /** A class operator the set-operation escaping rewrites. */
  predicate IsSetOperation(c: char) {
    c == '&' || c == '~' || c == '|'
  }

  /** The `std::regex_replace` over the class text: each `&`, `~` and `|` is replaced by
      `SetOperationEscape` and every other character is kept. */
  function EscapeSetOperations(s: string): (r: string)
    ensures (forall k :: 0 <= k < |s| ==> !IsSetOperation(s[k])) ==> r == s
    ensures |r| >= |s|
  {
    if s == [] then []
    else (if IsSetOperation(s[0]) then SetOperationEscape else [s[0]]) + EscapeSetOperations(s[1..])
  }

  /** The escaping works character by character, so it distributes over concatenation. */
  lemma {:induction false} EscapeSetOperationsAppend(a: string, b: string)
    ensures EscapeSetOperations(a + b) == EscapeSetOperations(a) + EscapeSetOperations(b)
  {
    if a == [] {
      assert a + b == b;
    } else {
      assert (a + b)[0] == a[0];
      assert (a + b)[1..] == a[1..] + b;
      EscapeSetOperationsAppend(a[1..], b);
    }
  }

  /** A class body after its first backslash is doubled and its set operations are escaped. */
  function ClassMembers(body: string): string {
    EscapeSetOperations(StringReplace(body, "\\", "\\\\").text)
  }

  /** How `ClassMembers` treats the first character of a body: a backslash is doubled and the
      rest escaped without further doubling; any other character is escaped on its own and the
      rest is treated as a body of its own. */
  lemma ClassMembersCons(c: char, rest: string)
    ensures c == '\\' ==> ClassMembers([c] + rest) == "\\\\" + EscapeSetOperations(rest)
    ensures c != '\\' ==>
      ClassMembers([c] + rest) == EscapeSetOperations([c]) + ClassMembers(rest)
  {
    var s := [c] + rest;
    if c == '\\' {
      assert s[0..1] == "\\";
      assert FindFrom(s, "\\", 0) == Some(0);
      assert StringReplace(s, "\\", "\\\\").text == "\\\\" + rest;
      EscapeSetOperationsAppend("\\\\", rest);
      assert EscapeSetOperations("\\\\") == "\\\\";
    } else {
      BackslashReplaceCons(c, rest);
      EscapeSetOperationsAppend([c], StringReplace(rest, "\\", "\\\\").text);
    }
  }

  /** The text the translator places between `[` and `]` for a class body without `--`
      (the branch at lines 113-117, then lines 158-170). */
  function ClassText(body: string): string {
    var escaped := ClassMembers(body);
    // The source reads escaped[0] unguarded; on an empty string that is the terminating NUL,
    // which matches none of the cases. A class body is never empty (`LexClassBodies`).
    if escaped != [] && escaped[0] == '!' then "^" + escaped[1..]
    else if escaped != [] && (escaped[0] == '^' || escaped[0] == '[') then "\\\\" + escaped
    else escaped
  }

  /** A leading `!` of a class body becomes the negation mark `^`; a leading `^` or `[` is kept
      behind the two-backslash prefix; in both cases the rest of the body is translated as a
      body of its own. Any other leading character is escaped with the rest as usual. */
  lemma ClassTextLeading(body: string)
    requires body != []
    ensures body[0] == '!' ==> ClassText(body) == "^" + ClassMembers(body[1..])
    ensures body[0] == '^' || body[0] == '[' ==>
      ClassText(body) == "\\\\" + [body[0]] + ClassMembers(body[1..])
    ensures body[0] != '!' && body[0] != '^' && body[0] != '[' ==>
      ClassText(body) == ClassMembers(body)
  {
    var c, rest := body[0], body[1..];
    assert body == [c] + rest;
    ClassMembersCons(c, rest);
    if c == '\\' {
      assert ClassMembers(body)[0] == '\\';
    } else {
      var e := EscapeSetOperations([c]);
      SetOperationEscapeLeading();
      assert [c][1..] == [];
      assert e == (if IsSetOperation(c) then SetOperationEscape else [c]);
      assert ClassMembers(body)[0] == e[0];
    }
  }

  // ---------------------------------------------------------------------------------------
  // Tokens: how the scanner cuts a pattern

  /** The units the scanner consumes in one turn of its loop. */
  datatype Token =
    | AnyString            // `*`
    | AnyChar              // `?`
    | Class(body: string)  // `[` body `]`
    | OpenBracket          // a `[` without a closing `]`
    | Literal(c: char)     // any other character

  /** The pattern text a token was cut from. */
  function TokenSource(t: Token): string {
    match t
    case AnyString => "*"
    case AnyChar => "?"
    case Class(b) => "[" + b + "]"
    case OpenBracket => "["
    case Literal(c) => [c]
  }

  function Spell(ts: seq<Token>): string {
    if ts == [] then [] else TokenSource(ts[0]) + Spell(ts[1..])
  }

  /** Where the search for the closing `]` of a class whose body begins at `i` starts
      (lines 96-102): past a leading `!`, then past a `]` that comes right after `[` or `[!`,
      which is a member of the class and not its end. */
  function ClassStart(p: string, i: nat): (j: nat)
    requires i <= |p|
    ensures i <= j <= |p|
  {
    var j := if i < |p| && p[i] == '!' then i + 1 else i;
    if j < |p| && p[j] == ']' then j + 1 else j
  }

  /** The first `]` at or after `j` (the loop at lines 104-105). */
  function FindClose(p: string, j: nat): (r: Option<nat>)
    requires j <= |p|
    ensures r.Some? ==> j <= r.value < |p| && p[r.value] == ']'
    ensures forall k :: j <= k < |p| && p[k] == ']' ==> r.Some? && r.value <= k
    decreases |p| - j
  {
    if j == |p| then None
    else if p[j] == ']' then Some(j)
    else FindClose(p, j + 1)
  }

  /** The position of the `]` that ends a class whose body begins at `i`, if there is one. */
  function ClassEnd(p: string, i: nat): Option<nat>
    requires i <= |p|
  {
    FindClose(p, ClassStart(p, i))
  }

  /** `s` holds no `]` from the point where the scanner starts to look for one. */
  predicate NoTerminator(s: string) {
    forall k :: ClassStart(s, 0) <= k < |s| ==> s[k] != ']'
  }

  /** A body the scanner accepts between `[` and `]`: it is not empty, it is not the lone
      negation mark, and it holds `]` only as its first member. */
  predicate ValidClassBody(b: string) {
    b != [] && b != "!" && NoTerminator(b)
  }

  /** The token the scanner reads at position `i`, and the position just past it: one turn of
      the loop at lines 82-199. */
  function TokenAt(p: string, i: nat): (r: (Token, nat))
    requires i < |p|
    ensures i < r.1 <= |p|
  {
    if p[i] == '*' then (AnyString, i + 1)
    else if p[i] == '?' then (AnyChar, i + 1)
    else if p[i] == '[' then BracketToken(p, i + 1)
    else (Literal(p[i]), i + 1)
  }

  /** The token that starts with the `[` just before position `i` (lines 94-173): a class
      up to the closing `]` when there is one, and the lone bracket when there is none. */
  function BracketToken(p: string, i: nat): (r: (Token, nat))
    requires i <= |p|
    ensures i <= r.1 <= |p|
  {
    match ClassEnd(p, i)
    case None => (OpenBracket, i)
    case Some(j) => (Class(p[i..j]), j + 1)
  }

  /** The scanner, one token at a time, from position `i`. */
  function LexFrom(p: string, i: nat): seq<Token>
    requires i <= |p|
    decreases |p| - i
  {
    if i == |p| then [] else [TokenAt(p, i).0] + LexFrom(p, TokenAt(p, i).1)
  }

  function Lex(p: string): seq<Token> {
    LexFrom(p, 0)
  }

  /** The body of a terminated class is a valid class body, so in particular it is never empty. */
  lemma ClassEndBody(p: string, i: nat)
    requires i <= |p|
    ensures ClassEnd(p, i).Some? ==>
      i < ClassEnd(p, i).value && ValidClassBody(p[i..ClassEnd(p, i).value])
  {
    if ClassEnd(p, i).Some? {
      var j, s := ClassEnd(p, i).value, ClassStart(p, i);
      var b := p[i..j];
      assert s <= j && p[j] == ']';
      assert b != [] && b != "!";
      assert ClassStart(b, 0) == s - i;
      forall k | ClassStart(b, 0) <= k < |b| ensures b[k] != ']' {
        assert b[k] == p[i + k];
      }
    }
  }

  /** One token spells the part of the pattern the scanner consumes for it, and a class token
      has a valid body. */
  lemma TokenAtSpells(p: string, i: nat)
    requires i < |p|
    ensures TokenSource(TokenAt(p, i).0) == p[i..TokenAt(p, i).1]
    ensures TokenAt(p, i).0.Class? ==> ValidClassBody(TokenAt(p, i).0.body)
  {
    if p[i] == '[' && ClassEnd(p, i + 1).Some? {
      var j := ClassEnd(p, i + 1).value;
      ClassEndBody(p, i + 1);
      assert TokenAt(p, i) == (Class(p[i + 1..j]), j + 1);
      assert p[i..j + 1] == [p[i]] + p[i + 1..j] + [p[j]];
    } else {
      assert TokenAt(p, i).1 == i + 1;
      assert p[i..i + 1] == [p[i]];
    }
  }

  lemma SpellCons(t: Token, ts: seq<Token>)
    ensures Spell([t] + ts) == TokenSource(t) + Spell(ts)
  {
    assert ([t] + ts)[1..] == ts;
  }

  /** The tokens spell the pattern again: the scanner consumes every character exactly once,
      in order, so its index only moves forward and each turn of its loop ends. */
  lemma {:induction false} LexSpells(p: string, i: nat)
    requires i <= |p|
    ensures Spell(LexFrom(p, i)) == p[i..]
    decreases |p| - i
  {
    if i < |p| {
      LexSpells(p, TokenAt(p, i).1);
      LexSpellsStep(p, i);
    }
  }

  /** If the tokens after the first spell the rest of the pattern, all of them spell it. */
  lemma LexSpellsStep(p: string, i: nat)
    requires i < |p| && Spell(LexFrom(p, TokenAt(p, i).1)) == p[TokenAt(p, i).1..]
    ensures Spell(LexFrom(p, i)) == p[i..]
  {
    var t, next := TokenAt(p, i).0, TokenAt(p, i).1;
    var rest := LexFrom(p, next);
    calc {
      Spell(LexFrom(p, i));
      { LexFromStep(p, i); }
      Spell([t] + rest);
      { SpellCons(t, rest); }
      TokenSource(t) + Spell(rest);
      { TokenAtSpells(p, i); }
      p[i..next] + p[next..];
      p[i..];
    }
  }

  /** Every class the scanner finds has a valid body; in particular no class body is empty. */
  lemma {:induction false} LexClassBodies(p: string, i: nat)
    requires i <= |p|
    ensures forall t | t in LexFrom(p, i) :: t.Class? ==> ValidClassBody(t.body)
    decreases |p| - i
  {
    if i < |p| {
      TokenAtSpells(p, i);
      LexClassBodies(p, TokenAt(p, i).1);
    }
  }

  // ---------------------------------------------------------------------------------------
  // The translation of the tokens

  /** The class bodies the model covers: those without `--` (the test at line 114). */
  predicate HasSetDifference(body: string) {
    FindFrom(body, "--", 0).Some?
  }

  predicate Supported(t: Token) {
    t.Class? ==> !HasSetDifference(t.body)
  }

  /** Patterns in which no class holds the set-difference operator `--`. */
  predicate SetDifferenceFree(p: string) {
    forall t | t in Lex(p) :: Supported(t)
  }

  /** Lines 176-197: a character outside any class is escaped when it is special, and copied
      otherwise. */
  function LiteralText(c: char): (r: string)
    ensures c in SpecialCharacters ==> r == ['\\', c]
    ensures c !in SpecialCharacters ==> r == [c]
  {
    if c in SpecialCharacters then SpecialCharactersMap[c] else [c]
  }

  /** What the translator emits for one token. */
  function TokenText(t: Token): string
    requires Supported(t)
  {
    match t
    case AnyString => ".*"
    case AnyChar => "."
    case Class(b) => "[" + ClassText(b) + "]"
    case OpenBracket => "\\["
    case Literal(c) => LiteralText(c)
  }

  function Render(ts: seq<Token>): string
    requires forall t | t in ts :: Supported(t)
  {
    if ts == [] then [] else TokenText(ts[0]) + Render(ts[1..])
  }

  lemma RenderCons(t: Token, ts: seq<Token>)
    requires Supported(t) && forall u | u in ts :: Supported(u)
    ensures Render([t] + ts) == TokenText(t) + Render(ts)
  {
    assert ([t] + ts)[1..] == ts;
  }

  /** The translated body of a pattern: the translations of its tokens, one after another. */
  function Body(p: string): string
    requires SetDifferenceFree(p)
  {
    Render(Lex(p))
  }

  // ---------------------------------------------------------------------------------------
  // The scanner of the source

  /** `translate` (lines 77-201) for patterns whose classes hold no `--`: the result is the
      translated body between `((` and `)|[\\r\\n])$`. */
  method Translate(pattern: string) returns (r: string)
    requires SetDifferenceFree(pattern)
    ensures r == Prefix + Body(pattern) + Suffix
  {
    var i, n := 0, |pattern|;
    var result := "";
    while i < n
      invariant 0 <= i <= n
      invariant TranslatedUpTo(pattern, i, result)
    {
      RenderStep(pattern, i, result);
      var text;
      text, i := TranslateToken(pattern, i);
      result := result + text;
    }
    r := Prefix + result + Suffix;
  }

  /** `result` is the translation of the tokens the scanner read before position `i`: followed
      by the translation of the rest, it is the translated body. */
  predicate TranslatedUpTo(p: string, i: nat, result: string)
    requires SetDifferenceFree(p) && i <= |p|
  {
    (forall t | t in LexFrom(p, i) :: Supported(t)) && result + Render(LexFrom(p, i)) == Body(p)
  }

  /** One token further, the translation so far grows by the text of that token. */
  lemma RenderStep(p: string, i: nat, result: string)
    requires SetDifferenceFree(p) && i < |p| && TranslatedUpTo(p, i, result)
    ensures Supported(TokenAt(p, i).0)
    ensures TranslatedUpTo(p, TokenAt(p, i).1, result + TokenText(TokenAt(p, i).0))
  {
    var token, rest := TokenAt(p, i).0, LexFrom(p, TokenAt(p, i).1);
    LexFromStep(p, i);
    assert token in LexFrom(p, i);
    RenderCons(token, rest);
    assert result + TokenText(token) + Render(rest) == result + (TokenText(token) + Render(rest));
  }

  /** One turn of the loop of `translate` (lines 84-198), starting at position `i`: the text
      it appends for the token there, and the position where the next turn starts. */
  method TranslateToken(pattern: string, i: nat) returns (text: string, next: nat)
    requires i < |pattern| && Supported(TokenAt(pattern, i).0)
    ensures next == TokenAt(pattern, i).1
    ensures text == TokenText(TokenAt(pattern, i).0)
  {
    var c := pattern[i];
    next := i + 1;
    if c == '*' {
      text := ".*";
    } else if c == '?' {
      text := ".";
    } else if c == '[' {
      text, next := TranslateBracket(pattern, i + 1);
    } else {
      if c in SpecialCharacters {
        text := SpecialCharactersMap[c];
      } else {
        text := [c];
      }
      assert text == LiteralText(c);
    }
  }

  /** The `[` branch of the loop (lines 96-173), for a `[` just before position `i`: a class up
      to the closing `]` when there is one, and the escaped `[` when there is none. */
  method TranslateBracket(pattern: string, i: nat) returns (text: string, next: nat)
    requires i <= |pattern| && Supported(BracketToken(pattern, i).0)
    ensures next == BracketToken(pattern, i).1
    ensures text == TokenText(BracketToken(pattern, i).0)
  {
    var n := |pattern|;
    next := i;
    var j := i;
    if j < n && pattern[j] == '!' {
      j := j + 1;
    }
    if j < n && pattern[j] == ']' {
      j := j + 1;
    }
    while j < n && pattern[j] != ']'
      invariant ClassStart(pattern, i) <= j <= n
      invariant FindClose(pattern, j) == ClassEnd(pattern, i)
    {
      j := j + 1;
    }
    if j >= n {
      text := "\\[";
    } else {
      ClassEndBody(pattern, i);
      text := TranslateClassBody(pattern[i..j]);
      next := j + 1;
    }
  }

  /** Lines 113-172 for a class body without `--`: the first backslash is doubled, the set
      operations are escaped, the leading character is rewritten, and the text is put in
      brackets. */
  method TranslateClassBody(body: string) returns (text: string)
    requires ValidClassBody(body) && !HasSetDifference(body)
    ensures text == "[" + ClassText(body) + "]"
  {
    var stuff := body;
    if FindFrom(stuff, "--", 0).None? {
      var replaced := StringReplace(stuff, "\\", "\\\\");
      stuff := replaced.text;
    }
    stuff := EscapeSetOperations(stuff);
    if stuff[0] == '!' {
      stuff := "^" + stuff[1..];
    } else if stuff[0] == '^' || stuff[0] == '[' {
      stuff := "\\\\" + stuff;
    }
    text := "[" + stuff + "]";
  }

  /** One turn of the scanner: the first token, then the tokens from the position after it. */
  lemma LexFromStep(p: string, i: nat)
    requires i < |p|
    ensures LexFrom(p, i) == [TokenAt(p, i).0] + LexFrom(p, TokenAt(p, i).1)
  {
  }

  // ---------------------------------------------------------------------------------------
  // What the translation does with each kind of token

  lemma ClassStartShift(a: string, q: string, i: nat)
    requires i <= |q|
    ensures ClassStart(a + q, |a| + i) == |a| + ClassStart(q, i)
  {
    var p := a + q;
    if i < |q| {
      assert p[|a| + i] == q[i];
    }
    if i + 1 < |q| {
      assert p[|a| + i + 1] == q[i + 1];
    }
  }

  lemma {:induction false} FindCloseShift(a: string, q: string, j: nat)
    requires j <= |q|
    ensures FindClose(a + q, |a| + j) == Shift(FindClose(q, j), |a|)
    decreases |q| - j
  {
    if j < |q| {
      assert (a + q)[|a| + j] == q[j];
      if q[j] != ']' {
        FindCloseShift(a, q, j + 1);
      }
    }
  }

  lemma ClassEndShift(a: string, q: string, i: nat)
    requires i <= |q|
    ensures ClassEnd(a + q, |a| + i) == Shift(ClassEnd(q, i), |a|)
  {
    ClassStartShift(a, q, i);
    FindCloseShift(a, q, ClassStart(q, i));
  }

  lemma BracketTokenShift(a: string, q: string, i: nat)
    requires i <= |q|
    ensures BracketToken(a + q, |a| + i) == (BracketToken(q, i).0, |a| + BracketToken(q, i).1)
  {
    ClassEndShift(a, q, i);
    if ClassEnd(q, i).Some? {
      var j := ClassEnd(q, i).value;
      assert (a + q)[|a| + i..|a| + j] == q[i..j];
    }
  }

  lemma TokenAtShift(a: string, q: string, i: nat)
    requires i < |q|
    ensures TokenAt(a + q, |a| + i) == (TokenAt(q, i).0, |a| + TokenAt(q, i).1)
  {
    assert (a + q)[|a| + i] == q[i];
    if q[i] == '[' {
      BracketTokenShift(a, q, i + 1);
    }
  }

  /** The scanner looks only forward, so what precedes a position does not change how the
      rest is cut. */
  lemma {:induction false} LexShift(a: string, q: string, i: nat)
    requires i <= |q|
    ensures LexFrom(a + q, |a| + i) == LexFrom(q, i)
    decreases |q| - i
  {
    if i < |q| {
      var t, n := TokenAt(q, i).0, TokenAt(q, i).1;
      calc {
        LexFrom(a + q, |a| + i);
        { LexFromStep(a + q, |a| + i); }
        [TokenAt(a + q, |a| + i).0] + LexFrom(a + q, TokenAt(a + q, |a| + i).1);
        { TokenAtShift(a, q, i); }
        [t] + LexFrom(a + q, |a| + n);
        { LexShift(a, q, n); }
        [t] + LexFrom(q, n);
        { LexFromStep(q, i); }
        LexFrom(q, i);
      }
    }
  }

  /** A `[` followed by a valid class body and `]` is read as one class token, and scanning
      resumes right after the `]`. */
  lemma LexClass(b: string, q: string)
    requires ValidClassBody(b)
    ensures Lex("[" + b + "]" + q) == [Class(b)] + Lex(q)
  {
    var p := "[" + b + "]" + q;
    var x := b + "]" + q;
    assert p == "[" + x;
    ClassStartShift("[", x, 0);
    assert x[0] == b[0];
    assert b[0] == '!' ==> x[1] == b[1];
    assert ClassStart(x, 0) == ClassStart(b, 0);
    var cs := 1 + ClassStart(b, 0);
    assert p[|b| + 1] == ']';
    forall k | cs <= k < |b| + 1
      ensures p[k] != ']'
    {
      assert p[k] == b[k - 1];
    }
    assert ClassEnd(p, 1) == Some(|b| + 1);
    assert p[1..|b| + 1] == b;
    assert TokenAt(p, 0) == (Class(b), |b| + 2);
    assert p == ("[" + b + "]") + q;
    LexShift("[" + b + "]", q, 0);
  }

  /** A `[` is read as a class exactly when a closing `]` follows it; otherwise it is read as
      an escaped bracket and scanning resumes at the very next character. */
  lemma LexOpenBracket(q: string)
    ensures NoTerminator(q) ==> Lex("[" + q) == [OpenBracket] + Lex(q)
    ensures !NoTerminator(q) ==> Lex("[" + q)[0].Class?
    ensures !NoTerminator(q) ==> exists b, r :: q == b + "]" + r && ValidClassBody(b)
  {
    if !NoTerminator(q) {
      ClassEndBody(q, 0);
      var j := ClassEnd(q, 0).value;
      assert q == q[..j] + "]" + q[j + 1..];
      assert q[0..j] == q[..j];
    }
    var p := "[" + q;
    ClassStartShift("[", q, 0);
    FindCloseShift("[", q, ClassStart(q, 0));
    LexShift("[", q, 0);
    assert p[0] == '[';
  }

  /** The token a character other than `[` always forms on its own. */
  function CharToken(c: char): Token {
    if c == '*' then AnyString else if c == '?' then AnyChar else Literal(c)
  }

  lemma LexCharacter(c: char, q: string)
    requires c != '['
    ensures Lex([c] + q) == [CharToken(c)] + Lex(q)
  {
    LexShift([c], q, 0);
  }

  /** A terminated class becomes one bracket expression holding the class text, and the rest
      of the pattern is translated on its own. */
  lemma TranslateClass(b: string, q: string)
    requires ValidClassBody(b) && !HasSetDifference(b) && SetDifferenceFree(q)
    ensures SetDifferenceFree("[" + b + "]" + q)
    ensures Body("[" + b + "]" + q) == "[" + ClassText(b) + "]" + Body(q)
  {
    LexClass(b, q);
    RenderCons(Class(b), Lex(q));
  }

  /** An unterminated `[` becomes the escaped bracket `\[`, and everything after it is
      translated as if the `[` were not there. */
  lemma TranslateOpenBracket(q: string)
    requires NoTerminator(q) && SetDifferenceFree(q)
    ensures SetDifferenceFree("[" + q)
    ensures Body("[" + q) == "\\[" + Body(q)
  {
    LexOpenBracket(q);
    RenderCons(OpenBracket, Lex(q));
  }

  /** What a single character stands for when no class is involved: `*` any string, `?` any
      character, `[` a literal bracket, and any other character itself, escaped if special. */
  function SimpleText(c: char): string {
    if c == '*' then ".*"
    else if c == '?' then "."
    else if c == '[' then "\\["
    else LiteralText(c)
  }

  /** `*` becomes `.*`, `?` becomes `.`, and any other character but `[` becomes itself, with a
      backslash in front when it is special. */
  lemma TranslateCharacter(c: char, q: string)
    requires c != '[' && SetDifferenceFree(q)
    ensures SetDifferenceFree([c] + q)
    ensures Body([c] + q) == SimpleText(c) + Body(q)
  {
    LexCharacter(c, q);
    RenderCons(CharToken(c), Lex(q));
  }

  /** Character-by-character translation. */
  function PerCharacter(p: string): string {
    if p == [] then [] else SimpleText(p[0]) + PerCharacter(p[1..])
  }

  /** Without any `]`, no class can close: the translation of a pattern is the translation of
      its characters one by one. */
  lemma {:induction false} TranslateWithoutClasses(p: string)
    requires ']' !in p
    ensures SetDifferenceFree(p) && Body(p) == PerCharacter(p)
  {
    if p != [] {
      var c, q := p[0], p[1..];
      assert p == [c] + q;
      assert ']' !in q by {
        forall k | 0 <= k < |q| ensures q[k] != ']' {
          assert q[k] == p[k + 1];
        }
      }
      TranslateWithoutClasses(q);
      if c == '[' {
        TranslateOpenBracket(q);
      } else {
        TranslateCharacter(c, q);
      }
    }
  }

  /** A body with no backslash and no set operation is kept as it is. */
  lemma PlainClassMembers(s: string)
    requires forall k :: 0 <= k < |s| ==> s[k] != '\\' && !IsSetOperation(s[k])
    ensures ClassMembers(s) == s
  {
  }

  /** A body with no two adjacent hyphens is handled by the branch the model covers. */
  lemma NoDoubleHyphen(s: string)
    requires forall k :: 0 <= k < |s| - 1 ==> s[k] != '-' || s[k + 1] != '-'
    ensures !HasSetDifference(s)
  {
    forall k | 0 <= k
      ensures !OccursAt(s, "--", k)
    {
      if k + 2 <= |s| {
        assert s[k..k + 2][0] == s[k] && s[k..k + 2][1] == s[k + 1];
      }
    }
  }

  /** Letters and digits are never special, so they are copied unescaped. */
  lemma AlphanumericLiteral(c: char)
    requires 'a' <= c <= 'z' || 'A' <= c <= 'Z' || '0' <= c <= '9'
    ensures LiteralText(c) == [c]
  {
    forall k | 0 <= k < |SpecialCharacters|
      ensures SpecialCharacters[k] != c
    {
    }
  }

  /** A pattern of letters and digits is copied character by character. */
  lemma {:induction false} AlphanumericPerCharacter(s: string)
    requires forall k :: 0 <= k < |s| ==> 'a' <= s[k] <= 'z' || 'A' <= s[k] <= 'Z' || '0' <= s[k] <= '9'
    ensures PerCharacter(s) == s
  {
    if s != [] {
      AlphanumericLiteral(s[0]);
      AlphanumericPerCharacter(s[1..]);
      assert s == [s[0]] + s[1..];
    }
  }

  lemma PerCharacterCons(c: char, q: string)
    ensures PerCharacter([c] + q) == SimpleText(c) + PerCharacter(q)
  {
    assert ([c] + q)[1..] == q;
  }

  /** Worked example: an unterminated bracket between two letters, such as `a[b`, is a literal
      bracket, `a\[b`. */
  lemma TranslateUnterminatedExample(a: char, b: char)
    requires 'a' <= a <= 'z' && 'a' <= b <= 'z'
    ensures SetDifferenceFree([a, '[', b]) && Body([a, '[', b]) == [a, '\\', '[', b]
  {
    TranslateWithoutClasses([a, '[', b]);
    AlphanumericLiteral(a);
    AlphanumericPerCharacter([b]);
    PerCharacterCons('[', [b]);
    PerCharacterCons(a, ['[', b]);
    assert [a, '[', b] == [a] + ['[', b] && ['[', b] == ['['] + [b];
  }

  /** A special character other than `*`, `?` and a bracket (the dot, for one) stands for
      itself, escaped. */
  lemma SpecialSimpleText(c: char)
    requires c in SpecialCharacters && c != '*' && c != '?' && c != '[' && c != ']'
    ensures SimpleText(c) == ['\\', c]
  {
  }

  /** A wildcard and a character the translator escapes, followed by letters, become `.*`,
      the escaped character and the letters. */
  lemma SpecialThenLettersPerCharacter(c: char, ext: string)
    requires SimpleText(c) == ['\\', c]
    requires forall k :: 0 <= k < |ext| ==> 'a' <= ext[k] <= 'z'
    ensures PerCharacter(['*', c] + ext) == ".*" + (['\\', c] + ext)
  {
    var q := [c] + ext;
    AlphanumericPerCharacter(ext);
    PerCharacterCons(c, ext);
    assert PerCharacter(q) == ['\\', c] + ext;
    PerCharacterCons('*', q);
    assert ['*', c] + ext == ['*'] + q;
  }

  /** Worked example: a wildcard followed by an escaped character and an extension, such as
      `*.txt`, becomes `.*`, then the escaped character, then the extension: `.*\.txt`. */
  lemma TranslateWildcardExample(c: char, ext: string)
    requires c in SpecialCharacters && c != '*' && c != '?' && c != '[' && c != ']'
    requires forall k :: 0 <= k < |ext| ==> 'a' <= ext[k] <= 'z'
    ensures SetDifferenceFree(['*', c] + ext)
    ensures Body(['*', c] + ext) == ".*" + (['\\', c] + ext)
  {
    var p := ['*', c] + ext;
    forall k | 0 <= k < |p| ensures p[k] != ']' {
      if k >= 2 {
        assert p[k] == ext[k - 2];
      }
    }
    TranslateWithoutClasses(p);
    SpecialSimpleText(c);
    SpecialThenLettersPerCharacter(c, ext);
  }

  /** A class `[!...]` over plain members is their negation, members unchanged. */
  lemma NegatedPlainClass(m: string)
    requires forall k :: 0 <= k < |m| ==> m[k] != '\\' && !IsSetOperation(m[k])
    ensures ClassText("!" + m) == "^" + m
  {
    var b := "!" + m;
    ClassTextLeading(b);
    assert b[1..] == m;
    PlainClassMembers(m);
  }

  /** `!` followed by members without `]` and without `--` is a body the scanner accepts and
      the model covers. */
  lemma NegatedBodyValid(m: string)
    requires m != []
    requires forall k :: 0 <= k < |m| ==> m[k] != ']'
    requires forall k :: 0 <= k < |m| - 1 ==> m[k] != '-' || m[k + 1] != '-'
    ensures ValidClassBody("!" + m) && !HasSetDifference("!" + m)
  {
    var b := "!" + m;
    assert b[1] == m[0];
    assert ClassStart(b, 0) == 1;
    forall k | 1 <= k < |b|
      ensures b[k] != ']'
    {
      assert b[k] == m[k - 1];
    }
    forall k | 0 <= k < |b| - 1
      ensures b[k] != '-' || b[k + 1] != '-'
    {
      if k > 0 {
        assert b[k] == m[k - 1] && b[k + 1] == m[k];
      }
    }
    NoDoubleHyphen(b);
  }

  /** A class `[!...]` whose members are plain characters (no `]`, no backslash, no set
      operation, no `--`) becomes the negated bracket expression `[^...]` over the same
      members, and the rest of the pattern is translated on its own. */
  lemma TranslateNegatedClass(m: string, q: string)
    requires m != [] && SetDifferenceFree(q)
    requires forall k :: 0 <= k < |m| ==> m[k] != ']' && m[k] != '\\' && !IsSetOperation(m[k])
    requires forall k :: 0 <= k < |m| - 1 ==> m[k] != '-' || m[k + 1] != '-'
    ensures SetDifferenceFree("[" + ("!" + m) + "]" + q)
    ensures Body("[" + ("!" + m) + "]" + q) == "[" + ("^" + m) + "]" + Body(q)
  {
    NegatedBodyValid(m);
    NegatedPlainClass(m);
    TranslateClass("!" + m, q);
  }

  /** A letter or a digit on its own is copied as it is. */
  lemma AlphanumericBody(x: char)
    requires 'a' <= x <= 'z' || 'A' <= x <= 'Z' || '0' <= x <= '9'
    ensures SetDifferenceFree([x]) && Body([x]) == [x]
  {
    TranslateWithoutClasses([x]);
    AlphanumericLiteral(x);
    assert [x][1..] == [];
  }

  /** Worked example: a negated range followed by a letter, such as `[!a-c]x`, becomes the
      negated bracket expression followed by the letter, `[^a-c]x`. */
  lemma TranslateNegatedRangeExample(lo: char, hi: char, x: char)
    requires 'a' <= lo <= 'z' && 'a' <= hi <= 'z' && 'a' <= x <= 'z'
    ensures SetDifferenceFree("[" + ['!', lo, '-', hi] + "]" + [x])
    ensures Body("[" + ['!', lo, '-', hi] + "]" + [x]) == "[" + ['^', lo, '-', hi] + "]" + [x]
  {
    AlphanumericBody(x);
    var m := [lo, '-', hi];
    assert ['!', lo, '-', hi] == "!" + m && ['^', lo, '-', hi] == "^" + m;
    TranslateNegatedClass(m, [x]);
  }
}
