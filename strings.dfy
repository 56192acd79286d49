/** The PHP string primitives the query layer relies on: `explode`, `implode`,
    `trim`, `strtolower`, `Str::endsWith`, `Str::replaceLast`, and the truthiness
    of a request value. */
module Strings {

  datatype Option<T> = None | Some(value: T)

  /** The characters PHP's `trim` strips by default: space, tab, newline,
      carriage return, NUL and vertical tab. */
  predicate IsTrimmable(c: char) {
    c == ' ' || c == '\t' || c == '\n' || c == '\r' || c == '\0' || c == '\U{0B}'
  }

  predicate AllTrimmable(s: string) {
    forall i :: 0 <= i < |s| ==> IsTrimmable(s[i])
  }

  /** A string with nothing for `trim` to strip. */
  predicate Trimmed(s: string) {
    s == [] || (!IsTrimmable(s[0]) && !IsTrimmable(s[|s| - 1]))
  }

  /** The first index at or after `i` that `trim` keeps, or `|s|`. */
  function FirstKept(s: string, i: nat): (r: nat)
    requires i <= |s|
    ensures i <= r <= |s|
    ensures forall k :: i <= k < r ==> IsTrimmable(s[k])
    ensures r < |s| ==> !IsTrimmable(s[r])
    decreases |s| - i
  {
    if i == |s| || !IsTrimmable(s[i]) then i else FirstKept(s, i + 1)
  }

  /** One past the last index before `j` that `trim` keeps, or 0. */
  function LastKept(s: string, j: nat): (r: nat)
    requires j <= |s|
    ensures r <= j
    ensures forall k :: r <= k < j ==> IsTrimmable(s[k])
    ensures r > 0 ==> !IsTrimmable(s[r - 1])
  {
    if j == 0 || !IsTrimmable(s[j - 1]) then j else LastKept(s, j - 1)
  }

  /** `r` is a slice of `s` with only trimmable characters outside it. */
  predicate TrimmedSliceOf(r: string, s: string) {
    exists i, j :: 0 <= i <= j <= |s| && r == s[i..j] && AllTrimmable(s[..i]) && AllTrimmable(s[j..])
  }

  /** PHP `trim`: the middle slice of `s` between the first and the last
      character it keeps (see TrimSlice); nothing is left to strip at
      either end. */
  function Trim(s: string): (r: string)
    ensures Trimmed(r)
  {
    var i := FirstKept(s, 0);
    if i == |s| then ""
    else
      var j := LastKept(s, |s|);
      assert i < j;
      s[i..j]
  }

  /** What `trim` keeps is a slice of the string with only trimmable
      characters outside it. */
  lemma TrimSlice(s: string)
    ensures TrimmedSliceOf(Trim(s), s)
  {
    var i := FirstKept(s, 0);
    if i == |s| {
      assert Trim(s) == s[i..i];
      assert AllTrimmable(s[..i]) && AllTrimmable(s[i..]);
    } else {
      var j := LastKept(s, |s|);
      assert Trim(s) == s[i..j];
      assert AllTrimmable(s[..i]) && AllTrimmable(s[j..]);
    }
  }

  /** Trimming a string that has nothing to strip leaves it alone. */
  lemma TrimOfTrimmed(s: string)
    requires Trimmed(s)
    ensures Trim(s) == s
  {
  }

  /** `trim` is idempotent. */
  lemma TrimIdempotent(s: string)
    ensures Trim(Trim(s)) == Trim(s)
  {
    TrimOfTrimmed(Trim(s));
  }

  /** PHP `strtolower` (ASCII only, as from PHP 8.2). */
  function LowerChar(c: char): (d: char)
    ensures 'A' <= c <= 'Z' ==> d as int == c as int + 32
    ensures !('A' <= c <= 'Z') ==> d == c
  {
    if 'A' <= c <= 'Z' then (c as int + 32) as char else c
  }

  function Lower(s: string): (r: string)
    ensures |r| == |s|
    ensures forall i :: 0 <= i < |s| ==> r[i] == LowerChar(s[i])
  {
    seq(|s|, i requires 0 <= i < |s| => LowerChar(s[i]))
  }

  lemma LowerIdempotent(s: string)
    ensures Lower(Lower(s)) == Lower(s)
  {
  }

  lemma LowerConcat(a: string, b: string)
    ensures Lower(a + b) == Lower(a) + Lower(b)
  {
  }

  /** `Str::endsWith` with one needle. */
  predicate EndsWith(s: string, suffix: string) {
    |suffix| <= |s| && s[|s| - |suffix|..] == suffix
  }

  /** `t` occurs in `s` starting at index `i`. */
  predicate OccursAt(s: string, t: string, i: int) {
    0 <= i && i + |t| <= |s| && s[i..i + |t|] == t
  }

  /** Scans downwards from `i` for an occurrence of `t`. */
  function LastIndexFrom(s: string, t: string, i: nat): (r: Option<nat>)
    requires i + |t| <= |s|
    ensures r.Some? ==> r.value <= i && OccursAt(s, t, r.value)
    ensures r.Some? ==> forall k :: r.value < k <= i ==> !OccursAt(s, t, k)
    ensures r.None? ==> forall k :: 0 <= k <= i ==> !OccursAt(s, t, k)
  {
    if s[i..i + |t|] == t then Some(i)
    else if i == 0 then None
    else LastIndexFrom(s, t, i - 1)
  }

  /** PHP `strrpos`: the start of the last occurrence of `t` in `s`. */
  function LastIndexOf(s: string, t: string): (r: Option<nat>)
    ensures r.Some? ==> OccursAt(s, t, r.value)
    ensures r.Some? ==> forall k :: r.value < k ==> !OccursAt(s, t, k)
    ensures r.None? ==> forall k :: !OccursAt(s, t, k)
  {
    if |t| > |s| then None else LastIndexFrom(s, t, |s| - |t|)
  }

  /** Laravel `Str::replaceLast(search, replace, subject)`: replaces the last
      occurrence of `search`; an empty `search` or no occurrence leaves the
      subject as it is. */
  function ReplaceLast(search: string, replace: string, subject: string): string {
    if search == [] then subject
    else
      match LastIndexOf(subject, search)
      case None => subject
      case Some(p) => subject[..p] + replace + subject[p + |search|..]
  }

  /** Removing the last occurrence of a non-empty suffix the subject ends with
      removes exactly that suffix. */
  lemma ReplaceLastOfSuffix(subject: string, suffix: string)
    requires suffix != [] && EndsWith(subject, suffix)
    ensures ReplaceLast(suffix, "", subject) == subject[..|subject| - |suffix|]
  {
    assert OccursAt(subject, suffix, |subject| - |suffix|);
    var r := LastIndexOf(subject, suffix);
    assert r == Some(|subject| - |suffix|);
  }

  /** PHP `implode(sep, parts)`. */
  function Join(parts: seq<string>, sep: char): string {
    if |parts| == 0 then ""
    else if |parts| == 1 then parts[0]
    else parts[0] + [sep] + Join(parts[1..], sep)
  }

  lemma JoinCons(p: string, rest: seq<string>, sep: char)
    requires |rest| >= 1
    ensures Join([p] + rest, sep) == p + [sep] + Join(rest, sep)
  {
    assert ([p] + rest)[1..] == rest;
  }

  /** Prepending a character to the first piece prepends it to the join. */
  lemma JoinPrepend(c: char, rest: seq<string>, sep: char)
    requires |rest| >= 1
    ensures Join([[c] + rest[0]] + rest[1..], sep) == [c] + Join(rest, sep)
  {
    if |rest| > 1 {
      JoinCons([c] + rest[0], rest[1..], sep);
      JoinCons(rest[0], rest[1..], sep);
      assert [rest[0]] + rest[1..] == rest;
    }
  }

  predicate NoneContain(parts: seq<string>, sep: char) {
    forall i :: 0 <= i < |parts| ==> sep !in parts[i]
  }

  /** PHP `explode(sep, s)`: the pieces of `s` between occurrences of `sep`,
      in order (see SplitPieces). */
  function Split(s: string, sep: char): (parts: seq<string>)
    ensures |parts| >= 1
  {
    if |s| == 0 then [""]
    else
      var rest := Split(s[1..], sep);
      if s[0] == sep then [""] + rest
      else [[s[0]] + rest[0]] + rest[1..]
  }

  /** No piece of `explode` contains the separator, and joining the pieces
      back gives the string. */
  lemma {:induction false} SplitPieces(s: string, sep: char)
    ensures NoneContain(Split(s, sep), sep)
    ensures Join(Split(s, sep), sep) == s
  {
    if |s| > 0 {
      var rest := Split(s[1..], sep);
      SplitPieces(s[1..], sep);
      assert s == [s[0]] + s[1..];
      if s[0] == sep {
        JoinCons("", rest, sep);
        var parts := Split(s, sep);
        forall i | 0 <= i < |parts| ensures sep !in parts[i] {
          if i > 0 { assert parts[i] == rest[i - 1]; }
        }
      } else {
        JoinPrepend(s[0], rest, sep);
        var parts := Split(s, sep);
        forall i | 0 <= i < |parts| ensures sep !in parts[i] {
          if i > 0 { assert parts[i] == rest[i]; }
          else { assert parts[0] == [s[0]] + rest[0]; }
        }
      }
    }
  }

  /** `explode` gives one piece more than there are separators. */
  lemma {:induction false} SplitCount(s: string, sep: char)
    ensures |Split(s, sep)| == multiset(s)[sep] + 1
  {
    if |s| > 0 {
      SplitCount(s[1..], sep);
      assert s == [s[0]] + s[1..];
      assert multiset(s) == multiset([s[0]]) + multiset(s[1..]);
    }
  }

  lemma {:induction false} SplitNoSeparator(s: string, sep: char)
    requires sep !in s
    ensures Split(s, sep) == [s]
  {
    if |s| > 0 {
      SplitNoSeparator(s[1..], sep);
      assert s == [s[0]] + s[1..];
    }
  }

  lemma {:induction false} SplitAfterPiece(a: string, sep: char, rest: string)
    requires sep !in a
    ensures Split(a + [sep] + rest, sep) == [a] + Split(rest, sep)
  {
    var s := a + [sep] + rest;
    if |a| == 0 {
      assert s == [sep] + rest;
      assert s[1..] == rest;
    } else {
      assert s[1..] == a[1..] + [sep] + rest;
      SplitAfterPiece(a[1..], sep, rest);
      var tail := Split(s[1..], sep);
      assert tail == [a[1..]] + Split(rest, sep);
      assert s[0] == a[0] && s[0] != sep;
      assert Split(s, sep) == [[a[0]] + tail[0]] + tail[1..];
      assert [a[0]] + a[1..] == a;
    }
  }

  /** `explode` undoes `implode` when no piece contains the separator. */
  lemma {:induction false} SplitJoin(parts: seq<string>, sep: char)
    requires |parts| >= 1
    requires NoneContain(parts, sep)
    ensures Split(Join(parts, sep), sep) == parts
  {
    if |parts| == 1 {
      SplitNoSeparator(parts[0], sep);
    } else {
      SplitJoin(parts[1..], sep);
      SplitAfterPiece(parts[0], sep, Join(parts[1..], sep));
    }
  }

  lemma SliceKeeps(s: string, i: int, j: int)
    requires 0 <= i <= j <= |s|
    ensures forall x :: x in s[i..j] ==> x in s
  {
    forall x | x in s[i..j] ensures x in s {
      var k :| i <= k < j && s[k] == x;
    }
  }

  /** What `trim` keeps comes from the string. */
  lemma TrimKeeps(s: string)
    ensures forall x :: x in Trim(s) ==> x in s
  {
    TrimSlice(s);
    var i, j :| 0 <= i <= j <= |s| && Trim(s) == s[i..j] && AllTrimmable(s[..i]) && AllTrimmable(s[j..]);
    SliceKeeps(s, i, j);
  }

  /** PHP truthiness of an optional request string: absent, "" and "0" are
      falsy. */
  predicate Truthy(v: Option<string>) {
    v.Some? && v.value != "" && v.value != "0"
  }

  /** The digit character of a value below ten. */
  function DigitChar(d: nat): (c: char)
    requires d < 10
    ensures '0' <= c <= '9' && DigitValue(c) == d
  {
    ('0' as int + d) as char
  }

  /** The value of a decimal digit character (0 for any other character). */
  function DigitValue(c: char): nat {
    if '0' <= c <= '9' then c as int - '0' as int else 0
  }

  /** The value of a string of decimal digits, read most significant
      first. */
  function DigitsValue(s: string): nat {
    if |s| == 0 then 0 else DigitsValue(s[..|s| - 1]) * 10 + DigitValue(s[|s| - 1])
  }

  /** `s` is the decimal text of `n` as PHP prints it: digits only, value
      `n`, and no leading zero unless `n` is zero itself. */
  predicate DecimalOf(s: string, n: nat) {
    |s| >= 1 && (forall i :: 0 <= i < |s| ==> '0' <= s[i] <= '9') &&
    DigitsValue(s) == n && (n > 0 ==> s[0] != '0') && (n == 0 ==> s == "0")
  }

  /** Decimal rendering of a natural number, as PHP's string conversion of
      an int. */
  function NatText(n: nat): (r: string)
    ensures DecimalOf(r, n)
  {
    if n < 10 then [DigitChar(n)]
    else
      var r := NatText(n / 10) + [DigitChar(n % 10)];
      assert r[..|r| - 1] == NatText(n / 10);
      r
  }

  /** Decimal rendering of an integer: a `-` before the text of its
      magnitude when it is negative. */
  function IntText(n: int): (r: string)
    ensures n >= 0 ==> DecimalOf(r, n)
    ensures n < 0 ==> |r| >= 2 && r[0] == '-' && DecimalOf(r[1..], -n)
  {
    if n < 0 then
      var r := "-" + NatText(-n);
      assert r[1..] == NatText(-n);
      r
    else NatText(n)
  }

  /** Two numbers with the same decimal text are equal, so the text is a
      faithful rendering. */
  lemma IntTextInjective(m: int, n: int)
    requires IntText(m) == IntText(n)
    ensures m == n
  {
  }
}
