/**
 * The three Python string operations the advice formatter is built from,
 * over `string` (= `seq<char>`): `str.split(sep)` with a one-character
 * separator, `sep.join(parts)` and `str.strip()` with no argument.
 */
module Text {

  /** Python's `str.isspace()` for one character: exactly the characters that
      `str.strip()` with no argument removes from either end. These include
      all of C's whitespace, but not the zero-width space, the byte-order
      mark or the Mongolian vowel separator. */
  predicate IsSpace(c: char) {
    || c == ' '
    || ('\t' <= c <= '\r')                 // \t \n \v \f \r
    || ('\U{1C}' <= c <= '\U{1F}')         // file, group, record, unit separators
    || c == '\U{85}' || c == '\U{A0}'
    || c == '\U{1680}'
    || ('\U{2000}' <= c <= '\U{200A}')
    || c == '\U{2028}' || c == '\U{2029}'
    || c == '\U{202F}' || c == '\U{205F}' || c == '\U{3000}'
  }

  /** C's six whitespace characters, the no-break space and the ideographic
      space are whitespace; the zero-width space, the byte-order mark and the
      Mongolian vowel separator, which Python 3 does not count, are not. */
  lemma IsSpaceExamples()
    ensures IsSpace(' ') && IsSpace('\t') && IsSpace('\n') && IsSpace('\U{B}') && IsSpace('\U{C}') && IsSpace('\r')
    ensures IsSpace('\U{A0}') && IsSpace('\U{3000}')
    ensures !IsSpace('\U{200B}') && !IsSpace('\U{FEFF}') && !IsSpace('\U{180E}')
    ensures !IsSpace('a') && !IsSpace('-')
  {
  }

  /** True when `s` has no character other than whitespace (the empty string included). */
  predicate IsBlank(s: string) {
    forall i :: 0 <= i < |s| ==> IsSpace(s[i])
  }

  // ---------------------------------------------------------------- strip

  /** The number of whitespace characters at the start of `s`. */
  function LeadingSpaces(s: string): (n: nat)
    ensures n <= |s|
    decreases |s|
  {
    if s != [] && IsSpace(s[0]) then 1 + LeadingSpaces(s[1..]) else 0
  }

  /** The number of whitespace characters at the end of `s`. */
  function TrailingSpaces(s: string): (n: nat)
    ensures n <= |s|
    decreases |s|
  {
    if s != [] && IsSpace(s[|s| - 1]) then 1 + TrailingSpaces(s[..|s| - 1]) else 0
  }

  /** Where the trailing whitespace of `s` begins, once its leading
      whitespace is cut off. */
  function StripEnd(s: string): (j: nat)
    ensures LeadingSpaces(s) <= j <= |s|
  {
    var t := s[LeadingSpaces(s)..];
    LeadingSpaces(s) + (|t| - TrailingSpaces(t))
  }

  /** `LeadingSpaces` counts a blank prefix that is as long as it can be. */
  lemma {:induction false} LeadingSpacesSpec(s: string)
    ensures IsBlank(s[..LeadingSpaces(s)])
    ensures LeadingSpaces(s) == |s| || !IsSpace(s[LeadingSpaces(s)])
    decreases |s|
  {
    if s != [] && IsSpace(s[0]) {
      var n := LeadingSpaces(s);
      LeadingSpacesSpec(s[1..]);
      assert s[..n] == [s[0]] + s[1..][..n - 1];
      assert n == |s| || s[n] == s[1..][n - 1];
    }
  }

  /** `TrailingSpaces` counts a blank suffix that is as long as it can be. */
  lemma {:induction false} TrailingSpacesSpec(s: string)
    ensures IsBlank(s[|s| - TrailingSpaces(s)..])
    ensures TrailingSpaces(s) == |s| || !IsSpace(s[|s| - 1 - TrailingSpaces(s)])
    decreases |s|
  {
    if s != [] && IsSpace(s[|s| - 1]) {
      var n := TrailingSpaces(s);
      var u := s[..|s| - 1];
      TrailingSpacesSpec(u);
      assert s[|s| - n..] == u[|u| - (n - 1)..] + [s[|s| - 1]];
      assert n == |s| || s[|s| - 1 - n] == u[|u| - 1 - (n - 1)];
    }
  }

  /** What follows `StripEnd` is blank, and the character before it is not
      whitespace unless nothing is left between the two cuts. */
  lemma StripEndSpec(s: string)
    ensures IsBlank(s[StripEnd(s)..])
    ensures StripEnd(s) == LeadingSpaces(s) || !IsSpace(s[StripEnd(s) - 1])
  {
    var i := LeadingSpaces(s);
    var t := s[i..];
    var n := TrailingSpaces(t);
    var j := StripEnd(s);
    TrailingSpacesSpec(t);
    assert j == i + (|t| - n);
    assert t[|t| - n..] == s[j..];
    assert n < |t| ==> t[|t| - 1 - n] == s[j - 1];
  }

  /** Python's `s.strip()`: `s` without its leading and trailing whitespace. */
  function Strip(s: string): (r: string)
    ensures |r| <= |s|
    ensures r != [] ==> !IsSpace(r[0]) && !IsSpace(r[|r| - 1])
  {
    LeadingSpacesSpec(s);
    StripEndSpec(s);
    s[LeadingSpaces(s)..StripEnd(s)]
  }

  /** An independent description of stripping: `r` is the part of `s` left
      after cutting off a blank prefix and a blank suffix, and `r` neither
      starts nor ends with whitespace. */
  ghost predicate IsStripOf(r: string, s: string) {
    && (exists i, j :: 0 <= i <= j <= |s| && r == s[i..j] && IsBlank(s[..i]) && IsBlank(s[j..]))
    && (r != [] ==> !IsSpace(r[0]) && !IsSpace(r[|r| - 1]))
  }

  /** `Strip` meets that description. */
  lemma StripIsStripOf(s: string)
    ensures IsStripOf(Strip(s), s)
  {
    var i, j := LeadingSpaces(s), StripEnd(s);
    LeadingSpacesSpec(s);
    StripEndSpec(s);
    assert Strip(s) == s[i..j] && IsBlank(s[..i]) && IsBlank(s[j..]);
  }

  /** A character before the end of a blank prefix is whitespace. */
  lemma InBlankPrefix(s: string, i: nat, k: nat)
    requires k < i <= |s| && IsBlank(s[..i])
    ensures IsSpace(s[k])
  {
    assert s[..i][k] == s[k];
  }

  /** A character after the start of a blank suffix is whitespace. */
  lemma InBlankSuffix(s: string, j: nat, k: nat)
    requires j <= k < |s| && IsBlank(s[j..])
    ensures IsSpace(s[k])
  {
    assert s[j..][k - j] == s[k];
  }

  /** Two cuts of `s` into blank prefix, middle and blank suffix whose middles
      are non-empty and do not start or end with whitespace are the same cut. */
  lemma SameCut(s: string, i: nat, j: nat, i': nat, j': nat)
    requires i < j <= |s| && IsBlank(s[..i]) && IsBlank(s[j..])
    requires !IsSpace(s[i]) && !IsSpace(s[j - 1])
    requires i' < j' <= |s| && IsBlank(s[..i']) && IsBlank(s[j'..])
    requires !IsSpace(s[i']) && !IsSpace(s[j' - 1])
    ensures i == i' && j == j'
  {
    if i < i' { InBlankPrefix(s, i', i); }
    if i' < i { InBlankPrefix(s, i, i'); }
  }

  /** The middle of such a cut is empty exactly when `s` is blank; otherwise
      its first and last characters are the ends of the middle. */
  lemma CutMiddle(s: string, i: nat, j: nat, r: string)
    requires i <= j <= |s| && IsBlank(s[..i]) && IsBlank(s[j..]) && r == s[i..j]
    requires r != [] ==> !IsSpace(r[0]) && !IsSpace(r[|r| - 1])
    ensures r == [] <==> IsBlank(s)
    ensures r != [] ==> i < j && !IsSpace(s[i]) && !IsSpace(s[j - 1])
  {
    if r == [] {
      forall k | 0 <= k < |s| ensures IsSpace(s[k]) {
        if k < i { InBlankPrefix(s, i, k); } else { InBlankSuffix(s, j, k); }
      }
    } else {
      assert r[0] == s[i] && r[|r| - 1] == s[j - 1];
    }
  }

  /** The description above determines the stripped string: `Strip` is the
      only string that satisfies it. */
  lemma StripUnique(r: string, s: string)
    requires IsStripOf(r, s)
    ensures r == Strip(s)
  {
    var i, j :| 0 <= i <= j <= |s| && r == s[i..j] && IsBlank(s[..i]) && IsBlank(s[j..]);
    var i', j' := LeadingSpaces(s), StripEnd(s);
    var r' := Strip(s);
    LeadingSpacesSpec(s);
    StripEndSpec(s);
    CutMiddle(s, i, j, r);
    CutMiddle(s, i', j', r');
    if r != [] {
      SameCut(s, i, j, i', j');
    }
  }

  /** Stripping leaves nothing exactly when the string is all whitespace: this
      is the test `if line.strip()` makes. */
  lemma StripEmptyIffBlank(s: string)
    ensures Strip(s) == [] <==> IsBlank(s)
  {
    LeadingSpacesSpec(s);
    StripEndSpec(s);
    CutMiddle(s, LeadingSpaces(s), StripEnd(s), Strip(s));
  }

  /** A string that neither starts nor ends with whitespace is left as it is. */
  lemma StripTrimmed(s: string)
    requires s == [] || (!IsSpace(s[0]) && !IsSpace(s[|s| - 1]))
    ensures Strip(s) == s
  {
    assert s[0..|s|] == s && s[..0] == [] && s[|s|..] == [];
    StripUnique(s, s);
  }

  /** Stripping twice is stripping once. */
  lemma StripIdempotent(s: string)
    ensures Strip(Strip(s)) == Strip(s)
  {
    StripTrimmed(Strip(s));
  }

  /** Every character of the stripped string is a character of the input. */
  lemma StripKeepsOnlyInputChars(s: string, c: char)
    requires c !in s
    ensures c !in Strip(s)
  {
  }

  // ---------------------------------------------------------------- split and join

  /** Python's `s.split(sep)` for a one-character separator: the pieces
      between consecutive occurrences of `sep`, empty ones included. */
  function Split(s: string, sep: char): (parts: seq<string>)
    ensures |parts| >= 1
    ensures forall k :: 0 <= k < |parts| ==> sep !in parts[k]
    decreases |s|
  {
    if s == [] then [""]
    else
      var rest := Split(s[1..], sep);
      if s[0] == sep then [""] + rest
      else [[s[0]] + rest[0]] + rest[1..]
  }

  /** Python's `sep.join(parts)`: the parts with `sep` between neighbours.
      The result starts with the first part. */
  function Join(parts: seq<string>, sep: string): (r: string)
    ensures parts != [] ==> |r| >= |parts[0]| && r[..|parts[0]|] == parts[0]
  {
    if |parts| == 0 then ""
    else if |parts| == 1 then parts[0]
    else parts[0] + sep + Join(parts[1..], sep)
  }

  /** Joining the pieces of a split with the separator gives back the input. */
  lemma {:induction false} JoinSplit(s: string, sep: char)
    ensures Join(Split(s, sep), [sep]) == s
    decreases |s|
  {
    if s != [] {
      var rest := Split(s[1..], sep);
      JoinSplit(s[1..], sep);
      if s[0] == sep {
        assert s == [sep] + s[1..];
      } else if |rest| == 1 {
        assert s == [s[0]] + s[1..];
      } else {
        assert Join(rest, [sep]) == rest[0] + [sep] + Join(rest[1..], [sep]);
        assert s == [s[0]] + s[1..];
      }
    }
  }

  /** Splitting `p + t` where `p` holds no separator glues `p` to the first
      piece of `t`. */
  lemma {:induction false} SplitAfterPlainPrefix(p: string, t: string, sep: char)
    requires sep !in p
    ensures Split(p + t, sep) == [p + Split(t, sep)[0]] + Split(t, sep)[1..]
    decreases |p|
  {
    if p != [] {
      var u := Split(t, sep);
      var rest := Split(p[1..] + t, sep);
      SplitAfterPlainPrefix(p[1..], t, sep);
      assert rest[0] == p[1..] + u[0] && rest[1..] == u[1..];
      assert (p + t)[0] == p[0] && p[0] != sep;
      assert (p + t)[1..] == p[1..] + t;
      assert Split(p + t, sep) == [[p[0]] + rest[0]] + rest[1..];
      assert [p[0]] + (p[1..] + u[0]) == p + u[0];
    } else {
      var u := Split(t, sep);
      assert p + t == t && p + u[0] == u[0];
      assert [u[0]] + u[1..] == u;
    }
  }

  /** Splitting the join of separator-free parts gives back the parts: the
      other half of the round trip. */
  lemma {:induction false} SplitJoin(parts: seq<string>, sep: char)
    requires |parts| >= 1
    requires forall k :: 0 <= k < |parts| ==> sep !in parts[k]
    ensures Split(Join(parts, [sep]), sep) == parts
    decreases |parts|
  {
    if |parts| == 1 {
      SplitAfterPlainPrefix(parts[0], "", sep);
      assert parts[0] + "" == parts[0];
    } else {
      var tail := Join(parts[1..], [sep]);
      SplitJoin(parts[1..], sep);
      assert Join(parts, [sep]) == parts[0] + ([sep] + tail);
      SplitAfterPlainPrefix(parts[0], [sep] + tail, sep);
      assert ([sep] + tail)[1..] == tail;
      assert Split([sep] + tail, sep) == [""] + parts[1..];
      assert parts[0] + "" == parts[0];
      assert [parts[0]] + parts[1..] == parts;
    }
  }

  /** A join with a whitespace separator is blank exactly when every part is. */
  lemma {:induction false} JoinBlank(parts: seq<string>, sep: char)
    requires IsSpace(sep)
    ensures IsBlank(Join(parts, [sep])) <==> forall k :: 0 <= k < |parts| ==> IsBlank(parts[k])
  {
    if |parts| >= 2 {
      var tail := Join(parts[1..], [sep]);
      JoinBlank(parts[1..], sep);
      var whole := parts[0] + [sep] + tail;
      assert Join(parts, [sep]) == whole;
      assert forall k :: 0 <= k < |parts[0]| ==> whole[k] == parts[0][k];
      assert forall k :: 0 <= k < |tail| ==> whole[|parts[0]| + 1 + k] == tail[k];
      if IsBlank(whole) {
        forall k | 0 <= k < |parts| ensures IsBlank(parts[k]) {
          if k > 0 { assert parts[1..][k - 1] == parts[k]; }
        }
      }
      if forall k :: 0 <= k < |parts| ==> IsBlank(parts[k]) {
        assert forall k :: 0 <= k < |parts| - 1 ==> IsBlank(parts[1..][k]);
      }
    }
  }
}
