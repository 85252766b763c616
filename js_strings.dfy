/** The JavaScript string primitives the converter relies on: `trim`,
    ASCII `toLowerCase`/`toUpperCase`, `split` on a one-character separator
    and its inverse `join`, `startsWith`, and the `\d+$` test. */
module JsStrings {

  /** WhiteSpace and LineTerminator code points, the set `String.prototype.trim` strips. */
  predicate IsJsWhitespace(c: char) {
    c == ' ' || c == '\t' || c == '\n' || c == '\U{B}' || c == '\U{C}' || c == '\r'
    || c == '\U{A0}' || c == '\U{1680}' || ('\U{2000}' <= c <= '\U{200A}')
    || c == '\U{2028}' || c == '\U{2029}' || c == '\U{202F}' || c == '\U{205F}'
    || c == '\U{3000}' || c == '\U{FEFF}'
  }

  /** `s` has no whitespace at either end. */
  predicate IsTrimmed(s: string) {
    s == [] || (!IsJsWhitespace(s[0]) && !IsJsWhitespace(s[|s| - 1]))
  }

  function TrimStart(s: string): (r: string)
    ensures |r| <= |s| && r == s[|s| - |r|..]
    ensures r == [] || !IsJsWhitespace(r[0])
    ensures forall i :: 0 <= i < |s| - |r| ==> IsJsWhitespace(s[i])
  {
    if s != [] && IsJsWhitespace(s[0]) then TrimStart(s[1..]) else s
  }

  function TrimEnd(s: string): (r: string)
    ensures |r| <= |s| && r == s[..|r|]
    ensures r == [] || !IsJsWhitespace(r[|r| - 1])
    ensures forall i :: |r| <= i < |s| ==> IsJsWhitespace(s[i])
  {
    if s != [] && IsJsWhitespace(s[|s| - 1]) then TrimEnd(s[..|s| - 1]) else s
  }

  /** `String.prototype.trim`: `s` without the whitespace at either end
      (`TrimStart` and `TrimEnd` each pin down their side exactly; see
      `TrimMeaning`); a string with none there is returned unchanged. */
  function Trim(s: string): (r: string)
    ensures IsTrimmed(r) && |r| <= |s|
    ensures IsTrimmed(s) ==> r == s
  {
    TrimEnd(TrimStart(s))
  }

  /** The trimmed text is the stretch of `s` after its leading whitespace,
      and everything of `s` outside that stretch is whitespace. */
  lemma TrimMeaning(s: string)
    ensures var r := Trim(s);
            var lead := |s| - |TrimStart(s)|;
            && lead + |r| <= |s| && r == s[lead..lead + |r|]
            && (forall i :: 0 <= i < lead ==> IsJsWhitespace(s[i]))
            && (forall i :: lead + |r| <= i < |s| ==> IsJsWhitespace(s[i]))
  {
    var t := TrimStart(s);
    var r := TrimEnd(t);
    var lead := |s| - |t|;
    assert Trim(s) == r;
    SliceOfSuffix(s, lead, |r|);
    TrailingWhitespace(s, t, r, lead);
  }

  lemma SliceOfSuffix(s: string, lead: nat, n: nat)
    requires lead + n <= |s|
    ensures s[lead..][..n] == s[lead..lead + n]
  {
  }

  lemma TrailingWhitespace(s: string, t: string, r: string, lead: nat)
    requires lead <= |s| && t == s[lead..]
    requires |r| <= |t| && forall i :: |r| <= i < |t| ==> IsJsWhitespace(t[i])
    ensures forall i :: lead + |r| <= i < |s| ==> IsJsWhitespace(s[i])
  {
    forall i | lead + |r| <= i < |s| ensures IsJsWhitespace(s[i]) {
      assert s[i] == t[i - lead];
    }
  }

  lemma TrimOfTrimmed(s: string)
    requires IsTrimmed(s)
    ensures Trim(s) == s
  {
  }

  /** Trimming twice is trimming once. */
  lemma TrimIdempotent(s: string)
    ensures Trim(Trim(s)) == Trim(s)
  {
    TrimOfTrimmed(Trim(s));
  }

  /** Trim returns the empty string exactly for an all-whitespace input. */
  lemma TrimEmptyIffBlank(s: string)
    ensures Trim(s) == [] <==> forall i :: 0 <= i < |s| ==> IsJsWhitespace(s[i])
  {
    var t := TrimStart(s);
    if t != [] {
      assert !IsJsWhitespace(t[0]);
      assert |TrimEnd(t)| > 0;
      assert s[|s| - |t|] == t[0];
    }
  }

  function LowerChar(c: char): char {
    if 'A' <= c <= 'Z' then (c as int + 32) as char else c
  }

  function UpperChar(c: char): char {
    if 'a' <= c <= 'z' then (c as int - 32) as char else c
  }

  /** `toLowerCase`, restricted to the ASCII letters. */
  function Lower(s: string): (r: string)
    ensures |r| == |s|
    ensures forall i :: 0 <= i < |s| ==> r[i] == LowerChar(s[i])
  {
    seq(|s|, i requires 0 <= i < |s| => LowerChar(s[i]))
  }

  /** `toUpperCase`, restricted to the ASCII letters. */
  function Upper(s: string): (r: string)
    ensures |r| == |s|
    ensures forall i :: 0 <= i < |s| ==> r[i] == UpperChar(s[i])
  {
    seq(|s|, i requires 0 <= i < |s| => UpperChar(s[i]))
  }

  lemma LowerIdempotent(s: string)
    ensures Lower(Lower(s)) == Lower(s)
  {
  }

  /** No whitespace character is a letter, so lower-casing and trimming commute. */
  lemma LowerTrimCommute(s: string)
    ensures Trim(Lower(s)) == Lower(Trim(s))
  {
    LowerTrimStart(s);
    LowerTrimEnd(TrimStart(s));
  }

  lemma {:induction false} LowerTrimStart(s: string)
    ensures TrimStart(Lower(s)) == Lower(TrimStart(s))
    decreases |s|
  {
    var ls := Lower(s);
    if s != [] {
      assert ls[0] == LowerChar(s[0]);
      assert IsJsWhitespace(ls[0]) == IsJsWhitespace(s[0]);
      if IsJsWhitespace(s[0]) {
        assert ls[1..] == Lower(s[1..]);
        LowerTrimStart(s[1..]);
      }
    }
  }

  lemma {:induction false} LowerTrimEnd(s: string)
    ensures TrimEnd(Lower(s)) == Lower(TrimEnd(s))
    decreases |s|
  {
    var ls := Lower(s);
    if s != [] {
      assert ls[|s| - 1] == LowerChar(s[|s| - 1]);
      assert IsJsWhitespace(ls[|s| - 1]) == IsJsWhitespace(s[|s| - 1]);
      if IsJsWhitespace(s[|s| - 1]) {
        assert ls[..|s| - 1] == Lower(s[..|s| - 1]);
        LowerTrimEnd(s[..|s| - 1]);
      }
    }
  }

  /** `s.startsWith(prefix)`. */
  predicate StartsWith(s: string, prefix: string) {
    |prefix| <= |s| && s[..|prefix|] == prefix
  }

  predicate IsAsciiDigit(c: char) {
    '0' <= c <= '9'
  }

  /** `/\d+$/.test(s)`: the string ends in at least one ASCII digit. */
  predicate EndsWithDigits(s: string) {
    s != [] && IsAsciiDigit(s[|s| - 1])
  }

  /** `s.split(sep)` for a one-character separator: the maximal
      separator-free runs, empty ones included; `"".split(sep)` is `[""]`. */
  function Split(s: string, sep: char): (parts: seq<string>)
    ensures |parts| >= 1
    ensures forall i :: 0 <= i < |parts| ==> sep !in parts[i]
  {
    if s == [] then [[]]
    else
      var rest := Split(s[1..], sep);
      if s[0] == sep then [[]] + rest
      else [[s[0]] + rest[0]] + rest[1..]
  }

  /** `parts.join(sep)`. */
  function Join(parts: seq<string>, sep: char): string {
    if parts == [] then []
    else if |parts| == 1 then parts[0]
    else parts[0] + [sep] + Join(parts[1..], sep)
  }

  /** Joining the pieces of a split gives back the input. */
  lemma {:induction false} JoinSplit(s: string, sep: char)
    ensures Join(Split(s, sep), sep) == s
  {
    if s != [] {
      var rest := Split(s[1..], sep);
      JoinSplit(s[1..], sep);
      if s[0] == sep {
        assert Split(s, sep) == [[]] + rest;
      } else {
        var parts := Split(s, sep);
        assert parts == [[s[0]] + rest[0]] + rest[1..];
        if |rest| == 1 {
          assert parts == [[s[0]] + rest[0]];
        } else {
          assert parts[1..] == rest[1..];
          assert Join(rest, sep) == rest[0] + [sep] + Join(rest[1..], sep);
        }
      }
    }
  }

  /** Splitting a join of separator-free pieces gives back the pieces. */
  lemma {:induction false} SplitJoin(parts: seq<string>, sep: char)
    requires |parts| >= 1
    requires forall i :: 0 <= i < |parts| ==> sep !in parts[i]
    ensures Split(Join(parts, sep), sep) == parts
    decreases |parts|, |parts[0]|
  {
    if |parts| == 1 {
      SplitNoSeparator(parts[0], sep);
    } else if parts[0] == [] {
      var tail := Join(parts[1..], sep);
      assert Join(parts, sep) == [sep] + tail;
      assert ([sep] + tail)[1..] == tail;
      SplitJoin(parts[1..], sep);
      assert parts == [[]] + parts[1..];
    } else {
      var shorter := [parts[0][1..]] + parts[1..];
      assert shorter[1..] == parts[1..];
      SplitJoin(shorter, sep);
      SplitJoinFirstChar(parts, sep);
    }
  }

  /** Moving the first character of the first piece in front of the join. */
  lemma SplitJoinFirstChar(parts: seq<string>, sep: char)
    requires |parts| >= 2 && parts[0] != []
    requires forall i :: 0 <= i < |parts| ==> sep !in parts[i]
    requires Split(Join([parts[0][1..]] + parts[1..], sep), sep) == [parts[0][1..]] + parts[1..]
    ensures Split(Join(parts, sep), sep) == parts
  {
    var head := parts[0];
    var shorter := [head[1..]] + parts[1..];
    assert shorter[1..] == parts[1..];
    var whole := Join(parts, sep);
    assert whole == head + [sep] + Join(parts[1..], sep);
    assert whole[1..] == Join(shorter, sep);
    assert head[0] != sep by { assert head[0] in parts[0]; }
    assert whole[0] == head[0];
    assert Split(whole, sep) == [[head[0]] + shorter[0]] + shorter[1..];
    assert [head[0]] + head[1..] == head;
  }

  lemma {:induction false} SplitNoSeparator(s: string, sep: char)
    requires sep !in s
    ensures Split(s, sep) == [s]
  {
    if s != [] {
      assert forall k :: 0 <= k < |s| - 1 ==> s[1..][k] == s[k + 1];
      SplitNoSeparator(s[1..], sep);
      assert s[0] != sep;
      assert [s[0]] + s[1..] == s;
    }
  }
}
