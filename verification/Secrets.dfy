/**
 * The registry of literal credential values: registration keeps it longest-first and free of
 * repeats, and redaction replaces every registered value in a text.
 */
module Secrets {
  import opened Options
  import opened Text

  const REDACTED := "[REDACTED]"
  const MIN_SECRET_LENGTH := 8

  // ------------------------------------------------------------------------------ redaction

  /** Every leftmost occurrence of one secret becomes the marker. */
  function RedactOne(secret: string, text: string): string
    requires secret != ""
  {
    Join(Split(text, secret), REDACTED)
  }

  function RedactAll(secrets: seq<string>, text: string): string
    requires "" !in secrets
  {
    if secrets == [] then text
    else RedactAll(secrets[1..], RedactOne(secrets[0], text))
  }

  /** Each leftmost occurrence is replaced, and all text around the occurrences stays. */
  lemma RedactOneReplaces(secret: string, parts: seq<string>)
    requires secret != "" && parts != [] && Leftmost(parts, secret) && !Occurs(parts[|parts| - 1], secret)
    ensures RedactOne(secret, Join(parts, secret)) == Join(parts, "[REDACTED]")
  {
    hide Split, Join, Leftmost, Occurs;
    LeftmostIsSplit(parts, secret);
  }

  /** Laid over the marker with its first character at `d`, the secret agrees wherever both have one. */
  ghost predicate Agree(secret: string, d: int) {
    && -|secret| < d < |REDACTED|
    && forall k :: 0 <= k < |secret| && 0 <= k + d < |REDACTED| ==> secret[k] == REDACTED[k + d]
  }

  /** The secret and the marker can share text: one holds the other or they meet end to end. */
  ghost predicate Overlaps(secret: string) {
    exists d :: Agree(secret, d)
  }

  /** Where an occurrence in `p + REDACTED + rest` can lie. */
  lemma AroundMarker(t: string, p: string, rest: string, i: int)
    requires At(p + REDACTED + rest, t, i)
    ensures At(p, t, i) || At(rest, t, i - |p| - |REDACTED|) || Agree(t, i - |p|)
  {
    var s := p + REDACTED + rest;
    if i + |t| <= |p| {
      assert p[i..i + |t|] == s[i..i + |t|];
    } else if i >= |p| + |REDACTED| {
      var j := i - |p| - |REDACTED|;
      assert rest[j..j + |t|] == s[i..i + |t|];
    } else {
      forall k | 0 <= k < |t| && 0 <= k + (i - |p|) < |REDACTED|
        ensures t[k] == REDACTED[k + (i - |p|)]
      {
        assert t[k] == s[i..i + |t|][k] == s[i + k];
      }
    }
  }

  /** Text the marker can not help to spell comes from one of the joined pieces. */
  lemma {:induction false} FromOnePiece(t: string, parts: seq<string>)
    requires !Overlaps(t) && t != "" && Occurs(Join(parts, REDACTED), t)
    ensures exists p :: p in parts && Occurs(p, t)
    decreases |parts|
  {
    var s := Join(parts, REDACTED);
    var i :| At(s, t, i);
    assert parts != [];
    if |parts| == 1 {
      assert parts[0] in parts;
    } else {
      AroundMarker(t, parts[0], Join(parts[1..], REDACTED), i);
      if At(parts[0], t, i) {
        assert parts[0] in parts;
      } else {
        FromOnePiece(t, parts[1..]);
      }
    }
  }

  /** Replacing `secret` removes it and creates no new occurrence of any other secret `t`. */
  lemma RedactOneRemoves(secret: string, text: string, t: string)
    requires secret != "" && t != "" && !Overlaps(t)
    requires t == secret || !Occurs(text, t)
    ensures !Occurs(RedactOne(secret, text), t)
  {
    if Occurs(RedactOne(secret, text), t) {
      var parts := Split(text, secret);
      FromOnePiece(t, parts);
      var p :| p in parts && Occurs(p, t);
      SplitPiecesFree(text, secret);
      SplitPiecesOccur(text, secret);
      OccursTrans(text, p, t);
    }
  }

  lemma {:induction false} NeverCreated(secrets: seq<string>, text: string, t: string)
    requires "" !in secrets && t != "" && !Overlaps(t) && !Occurs(text, t)
    ensures !Occurs(RedactAll(secrets, text), t)
    decreases |secrets|
  {
    if secrets != [] {
      RedactOneRemoves(secrets[0], text, t);
      NeverCreated(secrets[1..], RedactOne(secrets[0], text), t);
    }
  }

  /** No registered secret is left, whatever the text and whatever the other secrets are. */
  lemma {:induction false} NoSecretSurvives(secrets: seq<string>, text: string, t: string)
    requires "" !in secrets && t in secrets && !Overlaps(t)
    ensures !Occurs(RedactAll(secrets, text), t)
    decreases |secrets|
  {
    if secrets[0] == t {
      RedactOneRemoves(t, text, t);
      NeverCreated(secrets[1..], RedactOne(t, text), t);
    } else {
      NoSecretSurvives(secrets[1..], RedactOne(secrets[0], text), t);
    }
  }

  /** A secret of the accepted length without brackets shares no text with the marker. */
  lemma BracketFreeNeverOverlaps(t: string)
    requires '[' !in t && ']' !in t && t != "REDACTED" && |t| >= MIN_SECRET_LENGTH
    ensures !Overlaps(t)
  {
    forall d ensures !Agree(t, d) {
      if -|t| < d <= 0 {
        assert t[-d] in t && REDACTED[-d + d] == '[';
      } else if 0 < d < |REDACTED| <= d + |t| {
        assert t[9 - d] in t && REDACTED[9 - d + d] == ']';
      } else if d == 1 && |t| == 8 {
        var k :| 0 <= k < 8 && t[k] != "REDACTED"[k];
        assert REDACTED[k + d] == "REDACTED"[k];
      }
    }
  }

  lemma RedactedTextIsClean(secrets: seq<string>, text: string)
    requires forall t :: t in secrets ==>
      '[' !in t && ']' !in t && t != "REDACTED" && |t| >= MIN_SECRET_LENGTH
    ensures forall t :: t in secrets ==> !Occurs(RedactAll(secrets, text), t)
  {
    forall t | t in secrets ensures !Occurs(RedactAll(secrets, text), t) {
      BracketFreeNeverOverlaps(t);
      NoSecretSurvives(secrets, text, t);
    }
  }

  lemma {:induction false} CleanTextUntouched(secrets: seq<string>, text: string)
    requires "" !in secrets && forall t :: t in secrets ==> !Occurs(text, t)
    ensures RedactAll(secrets, text) == text
    decreases |secrets|
  {
    if secrets != [] {
      CountZero(text, secrets[0]);
      assert Split(text, secrets[0]) == [text];
      CleanTextUntouched(secrets[1..], text);
    }
  }

  // ---------------------------------------------------- exactly when one secret can resurface

  /**
   * Redacting can spell the secret anew: it starts inside a marker, or it starts in front of one
   * and the text in front was not itself taken by an earlier occurrence.
   */
  ghost predicate Resurfaces(t: string, d: int) {
    Agree(t, d) && (d >= 0 || IndexOf(t[..-d] + t, t) == -d)
  }

  lemma {:induction false} SurvivorResurfaces(t: string, text: string)
    requires t != "" && Occurs(RedactOne(t, text), t)
    ensures exists d :: Resurfaces(t, d)
    decreases |text|
  {
    RedactStep(t, text);
    SplitPiecesFree(text, t);
    hide RedactOne, Split, IndexOf, Occurs, Resurfaces;
    var n := IndexOf(text, t);
    var rest := text[n + |t|..];
    SurvivorStep(t, text, n, RedactOne(t, rest));
    if Occurs(RedactOne(t, rest), t) {
      SurvivorResurfaces(t, rest);
    }
  }

  /** The first occurrence becomes the marker and the rest is redacted. */
  lemma RedactStep(t: string, text: string)
    requires t != "" && Occurs(RedactOne(t, text), t)
    ensures var n := IndexOf(text, t);
      && At(text, t, n) && !Occurs(text[..n], t)
      && RedactOne(t, text) == text[..n] + REDACTED + RedactOne(t, text[n + |t|..])
  {
    hide IndexOf, Split, Join;
    SplitStep(text, t);
    SplitPiecesFree(text, t);
    assert Split(text, t)[0] in Split(text, t);
    JoinOne(text, REDACTED);
    var n := IndexOf(text, t);
    if n >= 0 { JoinCons(text[..n], Split(text[n + |t|..], t), REDACTED); }
  }

  lemma SurvivorStep(t: string, text: string, n: nat, tail: string)
    requires t != "" && At(text, t, n) && forall j :: 0 <= j < n ==> !At(text, t, j)
    requires !Occurs(text[..n], t) && Occurs(text[..n] + REDACTED + tail, t)
    ensures Occurs(tail, t) || exists d :: Resurfaces(t, d)
  {
    var i :| At(text[..n] + REDACTED + tail, t, i);
    AroundMarker(t, text[..n], tail, i);
    if Agree(t, i - n) {
      if i < n {
        StartsInFront(t, text[..n], REDACTED + tail, i);
        FirstInWindow(t, text, i, n);
      }
      assert Resurfaces(t, i - n);
    }
  }

  lemma StartsInFront(t: string, p: string, tail: string, i: nat)
    requires At(p + tail, t, i) && i < |p| <= i + |t|
    ensures p[i..] == t[..|p| - i]
  {
    assert t[..|p| - i] == (p + tail)[i..|p|];
  }

  /** Seen from a cut `i` in front of it, the first occurrence at `n` is still the first. */
  lemma FirstInWindow(t: string, text: string, i: nat, n: nat)
    requires t != "" && i < n <= i + |t| && At(text, t, n) && text[..n][i..] == t[..n - i]
    requires forall j :: 0 <= j < n ==> !At(text, t, j)
    ensures IndexOf(t[..n - i] + t, t) == n - i
  {
    hide *;
    var w := t[..n - i] + t;
    Window(t, text, i, n);
    forall j | 0 <= j < n - i ensures !At(w, t, j) {
      if At(w, t, j) { AtInside(text, w, t, i, j); }
    }
    FirstIs(w, t, n - i);
  }

  lemma Window(t: string, text: string, i: nat, n: nat)
    requires i < n <= i + |t| && At(text, t, n) && text[..n][i..] == t[..n - i]
    ensures At(text, t[..n - i] + t, i) && At(t[..n - i] + t, t, n - i)
  {
    var w := t[..n - i] + t;
    assert text[i..i + |w|] == text[..n][i..] + text[n..n + |t|];
    AtMiddle(t[..n - i], t, "");
    assert t[..n - i] + t + "" == w;
  }

  /** A secret that resurfaces does so for this very text. */
  lemma ResurfacesSomewhere(t: string, d: int)
    requires t != "" && Resurfaces(t, d)
    ensures exists text :: Occurs(RedactOne(t, text), t)
  {
    hide IndexOf, RedactOne, Occurs;
    var pre := if d < 0 then t[..-d] else "";
    var post := if d + |t| > |REDACTED| then t[|REDACTED| - d..] else "";
    RedactAround(t, pre, post);
    Respelled(t, d, pre, post);
  }

  lemma RedactAround(t: string, pre: string, post: string)
    requires t != "" && (pre == "" || IndexOf(pre + t, t) == |pre|) && |post| < |t|
    ensures RedactOne(t, pre + t + post) == pre + REDACTED + post
  {
    hide IndexOf, Split, Join;
    var text := pre + t + post;
    FirstBehind(t, pre, post);
    TooShort(post, t);
    SplitStep(text, t);
    SplitStep(post, t);
    assert text[..|pre|] == pre && text[|pre| + |t|..] == post;
    JoinTwo(pre, post);
  }

  lemma Respelled(t: string, d: int, pre: string, post: string)
    requires t != "" && Agree(t, d)
    requires pre == if d < 0 then t[..-d] else ""
    requires post == if d + |t| > |REDACTED| then t[|REDACTED| - d..] else ""
    ensures Occurs(pre + REDACTED + post, t)
  {
    var out, at := pre + REDACTED + post, |pre| + d;
    forall k | 0 <= k < |t| ensures out[at + k] == t[k] {
      if at + k < |pre| {
        assert out[at + k] == pre[k];
      } else if at + k < |pre| + |REDACTED| {
        assert out[at + k] == REDACTED[k + d];
      } else {
        assert out[at + k] == post[k + d - |REDACTED|];
      }
    }
    assert out[at..at + |t|] == t;
    assert At(out, t, at);
  }

  lemma FirstBehind(t: string, pre: string, post: string)
    requires t != "" && (pre == "" || IndexOf(pre + t, t) == |pre|)
    ensures IndexOf(pre + t + post, t) == |pre|
  {
    var text := pre + t + post;
    assert text[|pre|..|pre| + |t|] == t;
    assert At(text, t, |pre|);
    forall j | 0 <= j < |pre| ensures !At(text, t, j) {
      assert text[j..j + |t|] == (pre + t)[j..j + |t|];
      assert !At(pre + t, t, j);
    }
  }

  /** One registered secret is always removed if and only if no placement over the marker resurfaces. */
  lemma AlwaysRemovedIff(t: string)
    requires t != ""
    ensures (forall text :: !Occurs(RedactOne(t, text), t)) <==> !exists d :: Resurfaces(t, d)
  {
    if text :| Occurs(RedactOne(t, text), t) {
      SurvivorResurfaces(t, text);
    }
    if d :| Resurfaces(t, d) {
      ResurfacesSomewhere(t, d);
    }
  }

  /** A secret of accepted length that its own redaction leaves in the text: the word of the marker. */
  lemma MarkerWordSurvives(t: string)
    requires t == "REDACTED"
    ensures |t| >= MIN_SECRET_LENGTH && Occurs(RedactOne(t, t), t)
  {
    hide *;
    WordInMarker(t);
    RedactAround(t, "", "");
    assert "" + t + "" == t && "" + REDACTED + "" == REDACTED;
  }

  lemma WordInMarker(t: string)
    requires t == "REDACTED"
    ensures |t| >= MIN_SECRET_LENGTH && Occurs(REDACTED, t)
  {
    AtMiddle("[", t, "]");
    assert "[" + t + "]" == REDACTED;
  }

  // ----------------------------------------------------- exactly when it can, whatever else is registered

  /** What registration makes of any values: longest first, no repeats, trimmed and long enough. */
  ghost predicate Registered(secrets: seq<string>) {
    Descending(secrets) && Distinct(secrets) && forall t :: t in secrets ==> |t| >= MIN_SECRET_LENGTH && Trim(t) == t
  }

  ghost predicate Leaks(secrets: seq<string>, text: string, t: string) {
    "" !in secrets && Occurs(RedactAll(secrets, text), t)
  }

  /**
   * A secret is removed from every text whatever else is registered if and only if it shares no text
   * with the marker. Some character has to be free for the other secret.
   */
  lemma RemovedAmongOthersIff(t: string, c: char)
    requires |t| >= MIN_SECRET_LENGTH && Trim(t) == t && c !in t && !IsSpace(c)
    ensures (forall secrets, text :: Registered(secrets) && t in secrets ==> !Leaks(secrets, text, t)) <==> !Overlaps(t)
  {
    hide Overlaps, RedactAll, Descending, Distinct, Trim, IsSpace, Occurs;
    forall secrets, text | Registered(secrets) && t in secrets ensures !Overlaps(t) ==> !Leaks(secrets, text, t) {
      if !Overlaps(t) && "" !in secrets { NoSecretSurvives(secrets, text, t); }
    }
    if Overlaps(t) {
      var other, text := LeakBehind(t, c);
      assert t in [t, other];
    }
  }

  /** Another secret whose marker completes `t`. */
  lemma LeakBehind(t: string, c: char) returns (other: string, text: string)
    requires Overlaps(t) && |t| >= MIN_SECRET_LENGTH && Trim(t) == t && c !in t && !IsSpace(c)
    ensures Registered([t, other]) && Leaks([t, other], text, t)
  {
    hide Trim, IsSpace, RedactAll, RedactOne, Occurs;
    var d :| Agree(t, d);
    var pre := if d < 0 then t[..-d] else "";
    var post := if d + |t| > |REDACTED| then t[|REDACTED| - d..] else "";
    other := seq(MIN_SECRET_LENGTH, i => c);
    text := pre + other + post;
    TrimSame(other);
    Respelled(t, d, pre, post);
    assert c !in pre && c !in post && |pre| < |t| && |post| < |t|;
    hide Agree;
    assert other != t by { assert other[0] == c; }
    TwoRedactions(t, other, pre, post, c);
  }

  lemma TwoRedactions(t: string, other: string, pre: string, post: string, c: char)
    requires t != "" && other != "" && c !in t && c !in pre && c !in post && |pre| < |t| && |post| < |t|
    requires forall k :: 0 <= k < |other| ==> other[k] == c
    ensures RedactAll([t, other], pre + other + post) == pre + REDACTED + post
  {
    var text := pre + other + post;
    NotAcross(t, other, pre, post, c);
    var secrets := [t, other];
    CleanTextUntouched([t], text);
    assert RedactAll([t], text) == RedactAll([t][1..], RedactOne(t, text));
    assert RedactOne(t, text) == text;
    OtherRedacted(other, pre, post, c);
    assert secrets[1..] == [other] && secrets[1..][1..] == [];
    assert RedactAll(secrets, text) == RedactAll([other], text) == RedactOne(other, text);
  }

  lemma NotAcross(t: string, other: string, pre: string, post: string, c: char)
    requires t != "" && other != "" && c !in t && |pre| < |t| && |post| < |t|
    requires forall k :: 0 <= k < |other| ==> other[k] == c
    ensures !Occurs(pre + other + post, t)
  {
    var text := pre + other + post;
    forall i | 0 <= i && i + |t| <= |text| ensures !At(text, t, i) {
      var m := if i <= |pre| then |pre| else i;
      assert i <= m < i + |t| && m < |pre| + |other| ==> text[i..i + |t|][m - i] == text[m] == c;
      assert t[m - i] in t;
    }
  }

  lemma OtherRedacted(other: string, pre: string, post: string, c: char)
    requires other != "" && c !in pre && c !in post && forall k :: 0 <= k < |other| ==> other[k] == c
    ensures RedactOne(other, pre + other + post) == pre + REDACTED + post
  {
    var text := pre + other + post;
    AtMiddle(pre, other, post);
    forall j | 0 <= j < |pre| ensures !At(text, other, j) {
      assert text[j] == pre[j] && pre[j] in pre;
      assert j + |other| <= |text| ==> text[j..j + |other|][0] == pre[j];
    }
    FirstIs(text, other, |pre|);
    forall j ensures !At(post, other, j) {
      assert 0 <= j && j + |other| <= |post| ==> post[j..j + |other|][0] == post[j] && post[j] in post;
    }
    CountZero(post, other);
    hide At, IndexOf;
    assert text[..|pre|] == pre && text[|pre| + |other|..] == post;
    assert Split(post, other) == [post];
    assert Split(text, other) == [pre] + [post];
    JoinTwo(pre, post);
  }

  lemma JoinTwo(pre: string, post: string)
    ensures Join([pre] + [post], REDACTED) == pre + REDACTED + post
  {
    var parts := [pre] + [post];
    assert parts[1..] == [post];
  }

  // --------------------------------------------------------------------------- the registry

  /** Stable insertion that keeps longer values first. */
  function Insert(s: string, sorted: seq<string>): seq<string> {
    if sorted == [] || |sorted[0]| < |s| then [s] + sorted
    else [sorted[0]] + Insert(s, sorted[1..])
  }

  function LongestFirst(values: seq<string>): seq<string> {
    if values == [] then []
    else Insert(values[|values| - 1], LongestFirst(values[..|values| - 1]))
  }

  ghost predicate Descending(values: seq<string>) {
    forall i, j :: 0 <= i < j < |values| ==> |values[i]| >= |values[j]|
  }

  ghost predicate Distinct(values: seq<string>) {
    forall i, j :: 0 <= i < j < |values| ==> values[i] != values[j]
  }

  lemma {:induction false} InsertCounts(s: string, sorted: seq<string>)
    ensures multiset(Insert(s, sorted)) == multiset(sorted) + multiset{s}
    decreases |sorted|
  {
    if sorted != [] && |sorted[0]| >= |s| {
      InsertCounts(s, sorted[1..]);
      assert sorted == [sorted[0]] + sorted[1..];
    }
  }

  lemma {:induction false} InsertSorts(s: string, sorted: seq<string>)
    requires Descending(sorted)
    ensures Descending(Insert(s, sorted))
    decreases |sorted|
  {
    if sorted != [] && |sorted[0]| >= |s| {
      var r := Insert(s, sorted[1..]);
      assert forall k :: 0 <= k < |sorted[1..]| ==> |sorted[1..][k]| <= |sorted[0]|;
      InsertSorts(s, sorted[1..]);
      InsertCounts(s, sorted[1..]);
      assert multiset(r) == multiset(sorted[1..]) + multiset{s};
      forall k | 0 <= k < |r| ensures |r[k]| <= |sorted[0]| {
        assert r[k] in multiset(r);
        assert r[k] in sorted[1..] || r[k] == s;
      }
      hide Insert;
      ConsSorts(sorted[0], r);
    }
  }

  lemma ConsSorts(first: string, r: seq<string>)
    requires Descending(r) && forall k :: 0 <= k < |r| ==> |r[k]| <= |first|
    ensures Descending([first] + r)
  {}

  lemma {:induction false} SortSorts(values: seq<string>)
    ensures Descending(LongestFirst(values))
    ensures multiset(LongestFirst(values)) == multiset(values)
    decreases |values|
  {
    if values != [] {
      SortSorts(values[..|values| - 1]);
      InsertSorts(values[|values| - 1], LongestFirst(values[..|values| - 1]));
      InsertCounts(values[|values| - 1], LongestFirst(values[..|values| - 1]));
      assert values == values[..|values| - 1] + [values[|values| - 1]];
    }
  }

  lemma DistinctByCount(values: seq<string>)
    ensures Distinct(values) <==> forall v :: multiset(values)[v] <= 1
  {
    if Distinct(values) {
      forall v ensures multiset(values)[v] <= 1 { AtMostOnce(values, v); }
    } else {
      var i, j :| 0 <= i < j < |values| && values[i] == values[j];
      assert values == values[..j] + values[j..];
      assert values[..j][i] in values[..j] && values[j..][0] in values[j..];
      assert multiset(values)[values[i]] == multiset(values[..j])[values[i]] + multiset(values[j..])[values[i]];
    }
  }

  lemma {:induction false} AtMostOnce(values: seq<string>, v: string)
    requires Distinct(values)
    ensures multiset(values)[v] <= 1
    decreases |values|
  {
    if values != [] {
      var n := |values| - 1;
      AtMostOnce(values[..n], v);
      assert values == values[..n] + [values[n]];
      if v == values[n] { assert v !in values[..n]; }
    }
  }

  lemma SortKeeps(values: seq<string>)
    requires Distinct(values)
    ensures Descending(LongestFirst(values)) && Distinct(LongestFirst(values))
    ensures forall t :: t in LongestFirst(values) <==> t in values
  {
    SortSorts(values);
    DistinctByCount(values);
    DistinctByCount(LongestFirst(values));
    forall t ensures t in LongestFirst(values) <==> t in values {
      assert t in multiset(LongestFirst(values)) <==> t in multiset(values);
    }
  }

  /** What a list of optional values adds: the trimmed texts that are long enough. */
  function Accepted(values: seq<Option<string>>): set<string> {
    if values == [] then {}
    else
      var v := values[|values| - 1];
      Accepted(values[..|values| - 1])
      + if v.Some? && |Trim(v.value)| >= MIN_SECRET_LENGTH then {Trim(v.value)} else {}
  }

  /** A value is taken over exactly when some offered text trims to it and it has at least 8 characters. */
  lemma {:induction false} AcceptedIff(values: seq<Option<string>>, t: string)
    ensures t in Accepted(values) <==> |t| >= 8 && exists k :: OffersAt(values, k, t)
    decreases |values|
  {
    hide Trim;
    if values != [] {
      var n := |values| - 1;
      AcceptedIff(values[..n], t);
      if k :| OffersAt(values, k, t) && k < n { assert OffersAt(values[..n], k, t); }
      if k :| OffersAt(values[..n], k, t) { assert OffersAt(values, k, t); }
      assert OffersAt(values, n, t) <==> values[n].Some? && Trim(values[n].value) == t;
    }
  }

  predicate OffersAt(values: seq<Option<string>>, k: int, t: string) {
    0 <= k < |values| && values[k].Some? && Trim(values[k].value) == t
  }

  /** The registry after one more offered value, before it is sorted again. */
  function Add(secrets: seq<string>, v: Option<string>): seq<string> {
    if v.Some? && |Trim(v.value)| >= MIN_SECRET_LENGTH && Trim(v.value) !in secrets
    then secrets + [Trim(v.value)] else secrets
  }

  function AddAll(secrets: seq<string>, values: seq<Option<string>>): seq<string> {
    if values == [] then secrets
    else Add(AddAll(secrets, values[..|values| - 1]), values[|values| - 1])
  }

  lemma AddAllNone(secrets: seq<string>, values: seq<Option<string>>)
    ensures AddAll(secrets, values[..0]) == secrets
  {}

  lemma AddAllStep(secrets: seq<string>, values: seq<Option<string>>, i: nat)
    requires i < |values|
    ensures AddAll(secrets, values[..i + 1]) == Add(AddAll(secrets, values[..i]), values[i])
  {
    hide Add;
    assert values[..i + 1][..i] == values[..i];
  }

  lemma SortKeepsValid(secrets: seq<string>)
    requires Distinct(secrets) && LongEnough(secrets)
    ensures var sorted := LongestFirst(secrets);
      && Descending(sorted) && Distinct(sorted) && LongEnough(sorted)
      && forall t :: t in sorted <==> t in secrets
  {
    SortKeeps(secrets);
  }

  predicate LongEnough(secrets: seq<string>) {
    forall t :: t in secrets ==> |t| >= MIN_SECRET_LENGTH
  }

  lemma {:induction false} AddAllAccepts(secrets: seq<string>, values: seq<Option<string>>)
    requires Distinct(secrets) && LongEnough(secrets)
    ensures Distinct(AddAll(secrets, values)) && LongEnough(AddAll(secrets, values))
    ensures forall t :: t in AddAll(secrets, values) <==> t in secrets || t in Accepted(values)
    decreases |values|
  {
    if values != [] {
      hide Trim;
      AddAllAccepts(secrets, values[..|values| - 1]);
    }
  }

  class Registry {
    var secrets: seq<string>

    ghost predicate Valid()
      reads this
    {
      Descending(secrets) && Distinct(secrets) && LongEnough(secrets)
    }

    constructor ()
      ensures Valid() && secrets == []
    {
      secrets := [];
    }

    /** Registration only ever adds, and adds exactly the long enough trimmed values. */
    method RegisterSecretValues(values: seq<Option<string>>)
      requires Valid()
      modifies this
      ensures Valid()
      ensures forall t :: t in secrets <==> t in old(secrets) || t in Accepted(values)
    {
      AddAllAccepts(secrets, values);
      hide Trim, LongestFirst, Descending, Distinct, LongEnough, AddAll, Accepted;
      var added := false;
      AddAllNone(secrets, values);
      for i := 0 to |values|
        invariant secrets == AddAll(old(secrets), values[..i])
        invariant !added ==> secrets == old(secrets)
      {
        AddAllStep(old(secrets), values, i);
        if values[i].Some? {
          var trimmed := Trim(values[i].value);
          if |trimmed| >= MIN_SECRET_LENGTH && trimmed !in secrets {
            secrets := secrets + [trimmed];
            added := true;
          }
        }
      }
      assert values[..|values|] == values;
      if added {
        SortKeepsValid(secrets);
        secrets := LongestFirst(secrets);
      }
    }

    method RedactRegisteredSecrets(text: string) returns (out: string)
      requires Valid()
      ensures out == RedactAll(secrets, text)
      ensures forall t :: t in secrets && !Overlaps(t) ==> !Occurs(out, t)
      ensures (forall t :: t in secrets ==> !Occurs(text, t)) ==> out == text
    {
      out := text;
      for i := 0 to |secrets|
        invariant RedactAll(secrets[i..], out) == RedactAll(secrets, text)
      {
        var secret := secrets[i];
        assert secrets[i..][1..] == secrets[i + 1..];
        CountZero(out, secret);
        if IndexOf(out, secret) >= 0 {
          out := RedactOne(secret, out);
        } else {
          assert Split(out, secret) == [out];
        }
      }
      forall t | t in secrets && !Overlaps(t) ensures !Occurs(out, t) {
        NoSecretSurvives(secrets, text, t);
      }
      if forall t :: t in secrets ==> !Occurs(text, t) {
        CleanTextUntouched(secrets, text);
      }
    }
  }

  lemma NotInMarker(u: string)
    requires u != "" && !Overlaps(u)
    ensures !Occurs(REDACTED, u)
  {
    forall i | 0 <= i && i + |u| <= |REDACTED| ensures !At(REDACTED, u, i) {
      assert !Agree(u, i);
      var k :| 0 <= k < |u| && u[k] != REDACTED[k + i];
      assert REDACTED[i..i + |u|][k] == REDACTED[k + i];
    }
  }

  /**
   * Longest-first order: a registered secret is replaced whole even when shorter registered secrets
   * occur inside it.
   */
  lemma SecretReplacedWhole(secrets: seq<string>, t: string)
    requires "" !in secrets && t in secrets && Descending(secrets) && Distinct(secrets)
    requires forall u :: u in secrets ==> !Overlaps(u)
    ensures RedactAll(secrets, t) == REDACTED
    decreases |secrets|
  {
    var s := secrets[0];
    if s == t {
      assert At(t, t, 0);
      assert IndexOf(t, t) == 0;
      assert Split(t, t) == ["", ""];
      assert ["", ""][1..] == [""];
      assert RedactOne(t, t) == REDACTED;
      forall u | u in secrets ensures !Occurs(REDACTED, u) {
        NotInMarker(u);
      }
      CleanTextUntouched(secrets[1..], REDACTED);
    } else {
      var i :| 0 <= i < |secrets| && secrets[i] == t;
      forall k ensures !At(t, s, k) {
        if k == 0 && |s| == |t| { assert t[..|t|] == t; }
      }
      assert Split(t, s) == [t];
      assert secrets[1..][i - 1] == t;
      SecretReplacedWhole(secrets[1..], t);
    }
  }
}
