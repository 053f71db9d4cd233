/**
 * The regular expressions a glob compiles to: their syntax tree, the text of a pattern, a reader for
 * that text following the pattern grammar of ECMAScript (section 22.2.1 of ECMA-262), and what a
 * pattern matches.
 */
module RegExp {
  import opened Glob

  datatype Disjunction = Only(s: Alternative) | Or(s: Alternative, rest: Disjunction)
  datatype Alternative = Done | Then(t: Term, rest: Alternative)
  datatype Term = Term(atom: Atom, q: Quantifier)
  datatype Quantifier = One | ZeroOrMore | OneOrMore
  datatype Atom = Char(c: char) | Dot | NotSlash | Start | End | Group(d: Disjunction)

  // ----------------------------------------------------------------------------- what it matches

  /** `d` matches the stretch `s[i..j]`. */
  ghost predicate MatchesAny(d: Disjunction, s: string, i: int, j: int)
    decreases d, 0, 0
  {
    match d
    case Only(a) => Matches(a, s, i, j)
    case Or(a, rest) => Matches(a, s, i, j) || MatchesAny(rest, s, i, j)
  }

  ghost predicate Matches(a: Alternative, s: string, i: int, j: int)
    decreases a, 0, 0
  {
    match a
    case Done => 0 <= i == j <= |s|
    case Then(t, rest) => exists m :: MatchesTerm(t, s, i, m) && Matches(rest, s, m, j)
  }

  ghost predicate MatchesTerm(t: Term, s: string, i: int, j: int)
    decreases t, 0, 0
  {
    match t.q
    case One => MatchesAtom(t.atom, s, i, j)
    case ZeroOrMore => Repeats(t.atom, s, i, j)
    case OneOrMore => exists m :: MatchesAtom(t.atom, s, i, m) && Repeats(t.atom, s, m, j)
  }

  /** Zero or more matches of `a` back to back, none of them empty. */
  ghost predicate Repeats(a: Atom, s: string, i: int, j: int)
    decreases a, 1, j - i
  {
    0 <= i <= j <= |s|
    && (i == j || exists m :: i < m <= j && MatchesAtom(a, s, i, m) && Repeats(a, s, m, j))
  }

  ghost predicate MatchesAtom(a: Atom, s: string, i: int, j: int)
    decreases a, 0, 0
  {
    match a
    case Char(c) => 0 <= i < |s| && j == i + 1 && s[i] == c
    case Dot => 0 <= i < |s| && j == i + 1 && !IsLineTerminator(s[i])
    case NotSlash => 0 <= i < |s| && j == i + 1 && s[i] != '/'
    case Start => 0 == i == j
    case End => i == j == |s|
    case Group(d) => MatchesAny(d, s, i, j)
  }

  /** `new RegExp(…).test(s)`: a match somewhere in `s`. */
  ghost predicate Test(d: Disjunction, s: string) {
    exists i, j :: MatchesAny(d, s, i, j)
  }

  // -------------------------------------------------------------------------------- its text

  const META := ".+^${}()|[]\\"

  predicate IsSyntaxCharacter(c: char) {
    c in META || c == '*' || c == '?'
  }

  function Print(d: Disjunction): string {
    match d
    case Only(a) => PrintAlternative(a)
    case Or(a, rest) => PrintAlternative(a) + "|" + Print(rest)
  }

  function PrintAlternative(a: Alternative): string {
    match a
    case Done => ""
    case Then(t, rest) => PrintTerm(t) + PrintAlternative(rest)
  }

  function PrintTerm(t: Term): string {
    PrintAtom(t.atom)
    + match t.q
      case One => ""
      case ZeroOrMore => "*"
      case OneOrMore => "+"
  }

  function PrintAtom(a: Atom): string {
    match a
    case Char(c) => if c in META then ['\\', c] else [c]
    case Dot => "."
    case NotSlash => "[^/]"
    case Start => "^"
    case End => "$"
    case Group(d) => "(?:" + Print(d) + ")"
  }

  /** Assertions carry no quantifier, and no literal is one of the two characters left unescaped. */
  predicate Printable(d: Disjunction) {
    PrintableAlternative(d.s) && (d.Or? ==> Printable(d.rest))
  }

  predicate PrintableAlternative(a: Alternative) {
    a.Then? ==> PrintableTerm(a.t) && PrintableAlternative(a.rest)
  }

  predicate PrintableTerm(t: Term) {
    && ((t.atom.Start? || t.atom.End?) ==> t.q.One?)
    && match t.atom
       case Char(c) => c != '*' && c != '?'
       case Group(d) => Printable(d)
       case _ => true
  }

  // --------------------------------------------------------------------------- reading a pattern

  datatype Read<T> = Fail | Ok(value: T, rest: string)

  function ReadDisjunction(s: string): (r: Read<Disjunction>)
    ensures r.Ok? ==> |r.rest| <= |s|
    decreases |s|, 3
  {
    match ReadAlternative(s)
    case Fail => Fail
    case Ok(a, rest) =>
      if rest != "" && rest[0] == '|' then
        match ReadDisjunction(rest[1..])
        case Fail => Fail
        case Ok(d, rest') => Ok(Or(a, d), rest')
      else Ok(Only(a), rest)
  }

  function ReadAlternative(s: string): (r: Read<Alternative>)
    ensures r.Ok? ==> |r.rest| <= |s|
    decreases |s|, 2
  {
    if s == "" || s[0] == '|' || s[0] == ')' then Ok(Done, s)
    else
      match ReadTerm(s)
      case Fail => Fail
      case Ok(t, rest) =>
        match ReadAlternative(rest)
        case Fail => Fail
        case Ok(a, rest') => Ok(Then(t, a), rest')
  }

  function ReadTerm(s: string): (r: Read<Term>)
    requires s != ""
    ensures r.Ok? ==> |r.rest| < |s|
    decreases |s|, 1
  {
    match ReadAtom(s)
    case Fail => Fail
    case Ok(a, rest) =>
      if rest == "" then Ok(Term(a, One), rest)
      else if rest[0] == '?' || rest[0] == '{' then Fail
      else if rest[0] == '*' || rest[0] == '+' then
        if a.Start? || a.End? || (|rest| > 1 && rest[1] == '?') then Fail
        else Ok(Term(a, if rest[0] == '*' then ZeroOrMore else OneOrMore), rest[1..])
      else Ok(Term(a, One), rest)
  }

  function ReadAtom(s: string): (r: Read<Atom>)
    requires s != ""
    ensures r.Ok? ==> |r.rest| < |s|
    decreases |s|, 0
  {
    if s[0] == '.' then Ok(Dot, s[1..])
    else if s[0] == '^' then Ok(Start, s[1..])
    else if s[0] == '$' then Ok(End, s[1..])
    else if s[0] == '\\' then
      if |s| > 1 && IsSyntaxCharacter(s[1]) then Ok(Char(s[1]), s[2..]) else Fail
    else if "[^/]" <= s then Ok(NotSlash, s[4..])
    else if "(?:" <= s then
      match ReadDisjunction(s[3..])
      case Fail => Fail
      case Ok(d, rest) => if rest != "" && rest[0] == ')' then Ok(Group(d), rest[1..]) else Fail
    else if IsSyntaxCharacter(s[0]) then Fail
    else Ok(Char(s[0]), s[1..])
  }

  /** Text that may stand behind a term: not a quantifier. */
  predicate Follows(s: string) {
    s == "" || (s[0] != '*' && s[0] != '+' && s[0] != '?' && s[0] != '{')
  }

  predicate Closes(s: string) {
    s == "" || s[0] == ')'
  }

  lemma AtomFollows(a: Atom, rest: string)
    requires a.Char? ==> a.c != '*' && a.c != '?'
    ensures PrintAtom(a) != "" && Follows(PrintAtom(a) + rest)
    ensures PrintAtom(a)[0] != '|' && PrintAtom(a)[0] != ')'
  {}

  lemma AlternativeFollows(a: Alternative, rest: string)
    requires PrintableAlternative(a) && (Closes(rest) || rest[0] == '|')
    ensures Follows(PrintAlternative(a) + rest)
  {
    if a.Then? {
      AtomFollows(a.t.atom, "");
      assert PrintAtom(a.t.atom) + "" == PrintAtom(a.t.atom);
    }
  }

  lemma ReadCons(s: string, t: Term, rest: string)
    requires s != "" && s[0] != '|' && s[0] != ')' && ReadTerm(s) == Ok(t, rest)
    ensures ReadAlternative(rest).Ok? ==>
      ReadAlternative(s) == Ok(Then(t, ReadAlternative(rest).value), ReadAlternative(rest).rest)
  {
    hide ReadTerm;
  }

  lemma ReadDone(rest: string)
    requires Closes(rest) || rest[0] == '|'
    ensures ReadAlternative(rest) == Ok(Done, rest)
  {}

  lemma ReadOr(s: string, a: Alternative, t: string, d: Disjunction, rest: string)
    requires ReadAlternative(s) == Ok(a, "|" + t) && ReadDisjunction(t) == Ok(d, rest)
    ensures ReadDisjunction(s) == Ok(Or(a, d), rest)
  {
    hide ReadAlternative;
    assert ("|" + t)[1..] == t;
  }

  lemma ReadOnly(s: string, a: Alternative, rest: string)
    requires ReadAlternative(s) == Ok(a, rest) && Closes(rest)
    ensures ReadDisjunction(s) == Ok(Only(a), rest)
  {
    hide ReadAlternative;
  }

  lemma {:induction false} ReadPrintDisjunction(d: Disjunction, rest: string)
    requires Printable(d) && Closes(rest)
    ensures ReadDisjunction(Print(d) + rest) == Ok(d, rest)
    decreases d, 0
  {
    hide ReadAlternative, PrintAlternative, ReadDisjunction;
    match d {
      case Only(a) =>
        ReadPrintAlternative(a, rest);
        ReadOnly(Print(d) + rest, a, rest);
      case Or(a, more) =>
        ReadPrintAlternative(a, "|" + (Print(more) + rest));
        ReadPrintDisjunction(more, rest);
        assert Print(d) + rest == PrintAlternative(a) + ("|" + (Print(more) + rest));
        ReadOr(Print(d) + rest, a, Print(more) + rest, more, rest);
    }
  }

  lemma {:induction false} ReadPrintAlternative(a: Alternative, rest: string)
    requires PrintableAlternative(a) && (Closes(rest) || rest[0] == '|')
    ensures ReadAlternative(PrintAlternative(a) + rest) == Ok(a, rest)
    decreases a, 0
  {
    hide ReadTerm, ReadAlternative, PrintAtom;
    match a {
      case Done =>
        assert "" + rest == rest;
        ReadDone(rest);
      case Then(t, more) =>
        var tail := PrintAlternative(more) + rest;
        AlternativeFollows(more, rest);
        ReadPrintTerm(t, tail);
        ReadPrintAlternative(more, rest);
        AtomFollows(t.atom, "");
        assert PrintAlternative(a) + rest == PrintTerm(t) + tail;
        ReadCons(PrintAlternative(a) + rest, t, tail);
    }
  }

  lemma {:induction false} ReadPrintTerm(t: Term, rest: string)
    requires PrintableTerm(t) && Follows(rest)
    ensures PrintTerm(t) + rest != "" && ReadTerm(PrintTerm(t) + rest) == Ok(t, rest)
    decreases t, 0
  {
    hide ReadAtom, PrintAtom;
    AtomFollows(t.atom, "");
    var q := match t.q case One => "" case ZeroOrMore => "*" case OneOrMore => "+";
    assert PrintTerm(t) + rest == PrintAtom(t.atom) + (q + rest);
    ReadPrintAtom(t.atom, q + rest);
    if !t.q.One? {
      assert (q + rest)[1..] == rest;
    }
  }

  lemma {:induction false} ReadPrintAtom(a: Atom, rest: string)
    requires a.Char? ==> a.c != '*' && a.c != '?'
    requires a.Group? ==> Printable(a.d)
    ensures PrintAtom(a) + rest != "" && ReadAtom(PrintAtom(a) + rest) == Ok(a, rest)
    decreases a, 0
  {
    if a.Group? {
      var tail := ")" + rest;
      ReadPrintDisjunction(a.d, tail);
      ReadGroup(a.d, rest);
    } else {
      ReadSimpleAtom(a, rest);
    }
  }

  lemma ReadGroup(d: Disjunction, rest: string)
    requires ReadDisjunction(Print(d) + (")" + rest)) == Ok(d, ")" + rest)
    ensures PrintAtom(Group(d)) + rest != "" && ReadAtom(PrintAtom(Group(d)) + rest) == Ok(Group(d), rest)
  {
    hide ReadDisjunction, Print;
    var s, tail := PrintAtom(Group(d)) + rest, ")" + rest;
    assert s[3..] == Print(d) + tail && tail[1..] == rest;
  }

  lemma ReadSimpleAtom(a: Atom, rest: string)
    requires !a.Group? && (a.Char? ==> a.c != '*' && a.c != '?')
    ensures PrintAtom(a) + rest != "" && ReadAtom(PrintAtom(a) + rest) == Ok(a, rest)
  {
    hide ReadDisjunction;
    var s := PrintAtom(a) + rest;
    assert s[|PrintAtom(a)|..] == rest;
  }

  /** The text of a pattern reads back as that pattern. */
  lemma ReadPrint(d: Disjunction)
    requires Printable(d)
    ensures ReadDisjunction(Print(d)) == Ok(d, "")
  {
    ReadPrintDisjunction(d, "");
    assert Print(d) + "" == Print(d);
  }
}
