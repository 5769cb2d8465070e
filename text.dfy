/**
  The string operations the agent relies on: substring search (`in`),
  `str.split` with a non-empty separator, `str.endswith`, the identifier
  sanitisation done with `re.sub`, and the decimal rendering of a count inside
  an f-string.  `Join` is the inverse of `Split` (`SplitJoin`) and also
  describes the repr of a list of names.
 */
module Text {

  datatype Option<T> = None | Some(value: T)

  /** `pat` occurs in `s` starting at index `i`. */
  predicate OccursAt(s: string, pat: string, i: nat) {
    i + |pat| <= |s| && s[i..i + |pat|] == pat
  }

  /** Python's `pat in s`. */
  predicate Contains(s: string, pat: string) {
    exists i: nat | i <= |s| :: OccursAt(s, pat, i)
  }

  /** Python's `s.endswith(suffix)`. */
  predicate EndsWith(s: string, suffix: string) {
    |suffix| <= |s| && s[|s| - |suffix|..] == suffix
  }

  /** `pat in s` holds exactly when `s` splits as some text, `pat`, and some text. */
  lemma ContainsIffFactor(s: string, pat: string)
    ensures Contains(s, pat) <==> exists a: string, b: string :: s == a + pat + b
  {
    if Contains(s, pat) {
      var i: nat :| i <= |s| && OccursAt(s, pat, i);
      assert s == s[..i] + pat + s[i + |pat|..];
    }
    if exists a: string, b: string :: s == a + pat + b {
      var a: string, b: string :| s == a + pat + b;
      assert OccursAt(s, pat, |a|);
    }
  }

  /** `s.endswith(suffix)` holds exactly when `s` is some text followed by `suffix`. */
  lemma EndsWithIffAppended(s: string, suffix: string)
    ensures EndsWith(s, suffix) <==> exists t: string :: s == t + suffix
  {
    if EndsWith(s, suffix) {
      assert s == s[..|s| - |suffix|] + suffix;
    }
    if exists t: string :: s == t + suffix {
      var t: string :| s == t + suffix;
      assert s[|t|..] == suffix;
    }
  }

  /** First occurrence of `pat` in `s` at or after `from`. */
  function FindFrom(s: string, pat: string, from: nat): (r: Option<nat>)
    requires from <= |s|
    ensures r.Some? ==> from <= r.value && OccursAt(s, pat, r.value)
    ensures r.Some? ==> forall j: nat :: from <= j < r.value ==> !OccursAt(s, pat, j)
    ensures r.None? ==> forall j: nat :: from <= j ==> !OccursAt(s, pat, j)
    decreases |s| - from
  {
    if OccursAt(s, pat, from) then Some(from)
    else if from == |s| then None
    else FindFrom(s, pat, from + 1)
  }

  /** Python's `s.find(pat)`, with None for -1. */
  function Find(s: string, pat: string): (r: Option<nat>)
    ensures r.None? <==> !Contains(s, pat)
    ensures r.Some? ==> OccursAt(s, pat, r.value)
    ensures r.Some? ==> forall j: nat :: j < r.value ==> !OccursAt(s, pat, j)
  {
    FindFrom(s, pat, 0)
  }

  /** An occurrence inside a prefix of `s` is an occurrence in `s`. */
  lemma OccursInPrefix(s: string, pat: string, n: nat, j: nat)
    requires n <= |s|
    requires OccursAt(s[..n], pat, j)
    ensures OccursAt(s, pat, j)
  {
    forall k | 0 <= k < |pat| ensures s[j + k] == pat[k] {
      assert pat[k] == s[..n][j..j + |pat|][k];
    }
  }

  /** `at` is where `pat` first occurs in `s` at or after `from`, or the end
      of `s` when it does not occur there. */
  predicate FirstAt(s: string, pat: string, from: nat, at: nat) {
    && from <= at <= |s|
    && (at == |s| || OccursAt(s, pat, at))
    && forall j: nat :: from <= j < at ==> !OccursAt(s, pat, j)
  }

  /** There is one such place. */
  lemma FirstAtUnique(s: string, pat: string, from: nat, a: nat, b: nat)
    requires FirstAt(s, pat, from, a) && FirstAt(s, pat, from, b)
    ensures a == b
  {
  }

  /** The first place at or after `from` in `s[k..]`, seen from `s`. */
  lemma FirstAtShift(s: string, pat: string, k: nat, from: nat, at: nat)
    requires k <= |s|
    requires FirstAt(s[k..], pat, from, at)
    ensures FirstAt(s, pat, k + from, k + at)
  {
    forall j: nat | j + |pat| <= |s[k..]|
      ensures OccursAt(s[k..], pat, j) <==> OccursAt(s, pat, k + j)
    {
      assert s[k..][j..j + |pat|] == s[k + j..k + j + |pat|];
    }
    forall j: nat | k + from <= j < k + at ensures !OccursAt(s, pat, j) {
      assert !OccursAt(s[k..], pat, j - k);
    }
  }

  /** The first place of `pat` at or after `from`, by a left-to-right scan. */
  function NextAt(s: string, pat: string, from: nat): (at: nat)
    requires from <= |s|
    ensures FirstAt(s, pat, from, at)
  {
    match FindFrom(s, pat, from)
    case None => |s|
    case Some(j) => j
  }

  /** Python's `sep.join(parts)`. */
  function Join(parts: seq<string>, sep: string): string
    requires |parts| >= 1
  {
    if |parts| == 1 then parts[0] else parts[0] + sep + Join(parts[1..], sep)
  }

  /** Python's `s.split(sep)` for a non-empty separator: the pieces between
      successive non-overlapping occurrences, scanning left to right. */
  function Split(s: string, sep: string): (parts: seq<string>)
    requires sep != []
    ensures |parts| >= 1
    ensures |parts| >= 2 <==> Contains(s, sep)
    decreases |s|
  {
    match Find(s, sep)
    case None => [s]
    case Some(i) => [s[..i]] + Split(s[i + |sep|..], sep)
  }

  /** Nothing before the first occurrence of `pat` contains `pat`. */
  lemma BeforeFirstOccurrence(s: string, pat: string, i: nat)
    requires pat != [] && i <= |s|
    requires forall j: nat :: j < i ==> !OccursAt(s, pat, j)
    ensures !Contains(s[..i], pat)
  {
    forall j: nat | OccursAt(s[..i], pat, j)
      ensures false
    {
      OccursInPrefix(s, pat, i, j);
    }
  }

  /** No piece of a split contains the separator. */
  lemma {:induction false} SplitPiecesFree(s: string, sep: string)
    requires sep != []
    ensures forall k :: 0 <= k < |Split(s, sep)| ==> !Contains(Split(s, sep)[k], sep)
    decreases |s|
  {
    match Find(s, sep)
    case None =>
    case Some(i) =>
      BeforeFirstOccurrence(s, sep, i);
      SplitPiecesFree(s[i + |sep|..], sep);
  }

  /** Joining the pieces of a split with its separator gives the string back. */
  lemma {:induction false} SplitJoin(s: string, sep: string)
    requires sep != []
    ensures Join(Split(s, sep), sep) == s
    decreases |s|
  {
    match Find(s, sep)
    case None =>
    case Some(i) =>
      var rest := s[i + |sep|..];
      SplitJoin(rest, sep);
      var parts := Split(s, sep);
      assert parts[1..] == Split(rest, sep);
      assert s == s[..i] + sep + rest;
  }

  /** Everything before the first occurrence of `sep`, or all of `s` when
      there is none. */
  function Before(s: string, sep: string): (h: string)
    requires sep != []
    ensures |h| <= |s| && s[..|h|] == h
    ensures |h| == |s| || OccursAt(s, sep, |h|)
    ensures !Contains(h, sep)
    ensures forall j: nat :: j < |h| ==> !OccursAt(s, sep, j)
  {
    match Find(s, sep)
    case None => s
    case Some(i) =>
      BeforeFirstOccurrence(s, sep, i);
      s[..i]
  }

  /** The cut of `Before` is the first occurrence of the separator. */
  lemma BeforeIsFirst(s: string, sep: string)
    requires sep != []
    ensures FirstAt(s, sep, 0, |Before(s, sep)|)
  {
  }

  /** The first piece of a split is everything before the first occurrence of
      the separator. */
  lemma SplitHead(s: string, sep: string)
    requires sep != []
    ensures Split(s, sep)[0] == Before(s, sep)
  {
  }

  /** The second piece of a split is what follows the first occurrence of the
      separator, up to the next one. */
  lemma SplitSecond(s: string, sep: string)
    requires sep != [] && Find(s, sep).Some?
    ensures |Split(s, sep)| >= 2
    ensures Split(s, sep)[1] == Before(s[Find(s, sep).value + |sep|..], sep)
  {
    SplitHead(s[Find(s, sep).value + |sep|..], sep);
  }

  /** Characters kept by `re.sub(r'[^a-zA-Z0-9_]', '_', name)`. */
  predicate IsWordChar(c: char) {
    ('a' <= c <= 'z') || ('A' <= c <= 'Z') || ('0' <= c <= '9') || c == '_'
  }

  predicate IsIdentifierText(s: string) {
    forall i :: 0 <= i < |s| ==> IsWordChar(s[i])
  }

  /** The variable name derived from an uploaded file name: every character
      outside [A-Za-z0-9_] is replaced, one for one, by an underscore. */
  function Sanitize(name: string): (r: string)
    ensures |r| == |name|
    ensures forall i :: 0 <= i < |name| ==> r[i] == (if IsWordChar(name[i]) then name[i] else '_')
  {
    if name == [] then []
    else [if IsWordChar(name[0]) then name[0] else '_'] + Sanitize(name[1..])
  }

  /** A sanitised name holds only [A-Za-z0-9_]. */
  lemma SanitizedIsIdentifier(name: string)
    ensures IsIdentifierText(Sanitize(name))
  {
  }

  /** Sanitisation leaves a name alone exactly when it is already made of
      [A-Za-z0-9_]. */
  lemma SanitizeFixedPoints(name: string)
    ensures Sanitize(name) == name <==> IsIdentifierText(name)
  {
    if !IsIdentifierText(name) {
      var i :| 0 <= i < |name| && !IsWordChar(name[i]);
      assert Sanitize(name)[i] == '_' != name[i];
    }
  }

  /** Sanitising twice is sanitising once. */
  lemma SanitizeIdempotent(name: string)
    ensures Sanitize(Sanitize(name)) == Sanitize(name)
  {
    SanitizedIsIdentifier(name);
    SanitizeFixedPoints(Sanitize(name));
  }

  /** Two names that differ only where both have characters outside
      [A-Za-z0-9_] sanitise to the same variable name: this is how two uploads
      can collide in the file context. */
  lemma SanitizeCollision(a: string, b: string)
    requires |a| == |b|
    requires forall i :: 0 <= i < |a| ==> a[i] == b[i] || (!IsWordChar(a[i]) && !IsWordChar(b[i]))
    ensures Sanitize(a) == Sanitize(b)
  {
  }

  function DigitChar(d: nat): (c: char)
    requires d < 10
  {
    ('0' as int + d) as char
  }

  function DigitValue(c: char): nat {
    if '0' <= c <= '9' then (c as int - '0' as int) as nat else 0
  }

  /** Python's `str(n)` for a non-negative integer. */
  function Decimal(n: nat): (s: string)
    ensures |s| >= 1
    ensures forall i :: 0 <= i < |s| ==> '0' <= s[i] <= '9'
    ensures s[0] != '0' || n == 0
  {
    if n < 10 then [DigitChar(n)] else Decimal(n / 10) + [DigitChar(n % 10)]
  }

  /** The number a string of decimal digits denotes. */
  function DecimalValue(s: string): nat {
    if s == [] then 0 else DecimalValue(s[..|s| - 1]) * 10 + DigitValue(s[|s| - 1])
  }

  /** Reading back the decimal rendering gives the number. */
  lemma {:induction false} DecimalRoundTrip(n: nat)
    ensures DecimalValue(Decimal(n)) == n
  {
    if n >= 10 {
      DecimalRoundTrip(n / 10);
      var s := Decimal(n);
      assert s[..|s| - 1] == Decimal(n / 10);
      assert DigitValue(s[|s| - 1]) == n % 10;
      assert DecimalValue(s) == (n / 10) * 10 + n % 10;
    }
  }
}
