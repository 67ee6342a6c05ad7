/**
 * The JavaScript string built-ins the materials parser relies on:
 * `trim`, `startsWith`, `includes`, `split` on a single character,
 * and the removal of every `\s` match.
 */
module Text {

  /** ECMAScript WhiteSpace and LineTerminator code points: the set both
      `String.prototype.trim` and the regular-expression class `\s` use. */
  predicate IsWhitespace(c: char) {
    var n := c as int;
    (0x09 <= n <= 0x0D) || n == 0x20 || n == 0xA0 || n == 0x1680 ||
    (0x2000 <= n <= 0x200A) || n == 0x2028 || n == 0x2029 || n == 0x202F ||
    n == 0x205F || n == 0x3000 || n == 0xFEFF
  }

  predicate AllWhitespace(s: string) {
    forall k :: 0 <= k < |s| ==> IsWhitespace(s[k])
  }

  predicate NoWhitespace(s: string) {
    forall k :: 0 <= k < |s| ==> !IsWhitespace(s[k])
  }

  /** Neither starts nor ends with whitespace. */
  predicate IsTrimmed(s: string) {
    s == [] || (!IsWhitespace(s[0]) && !IsWhitespace(s[|s| - 1]))
  }

  /** The number of whitespace characters `s` starts with. */
  function LeadingWhitespace(s: string): (n: nat)
    ensures n <= |s|
    ensures n < |s| ==> !IsWhitespace(s[n])
  {
    if |s| > 0 && IsWhitespace(s[0]) then 1 + LeadingWhitespace(s[1..]) else 0
  }

  /** The number of whitespace characters `s` ends with. */
  function TrailingWhitespace(s: string): (n: nat)
    ensures n <= |s|
    ensures n < |s| ==> !IsWhitespace(s[|s| - 1 - n])
  {
    if |s| > 0 && IsWhitespace(s[|s| - 1]) then 1 + TrailingWhitespace(s[..|s| - 1]) else 0
  }

  /** Everything `LeadingWhitespace` counts is whitespace. */
  lemma {:induction false} LeadingWhitespaceSpec(s: string)
    ensures forall k :: 0 <= k < LeadingWhitespace(s) ==> IsWhitespace(s[k])
  {
    if |s| > 0 && IsWhitespace(s[0]) {
      LeadingWhitespaceSpec(s[1..]);
      forall k | 1 <= k < LeadingWhitespace(s) ensures IsWhitespace(s[k]) {
        assert s[k] == s[1..][k - 1];
      }
    }
  }

  /** Everything `TrailingWhitespace` counts is whitespace. */
  lemma {:induction false} TrailingWhitespaceSpec(s: string)
    ensures forall k :: |s| - TrailingWhitespace(s) <= k < |s| ==> IsWhitespace(s[k])
  {
    if |s| > 0 && IsWhitespace(s[|s| - 1]) {
      var init := s[..|s| - 1];
      TrailingWhitespaceSpec(init);
      forall k | |s| - TrailingWhitespace(s) <= k < |s| - 1 ensures IsWhitespace(s[k]) {
        assert s[k] == init[k];
      }
    }
  }

  /** `String.prototype.trim`: the part of `s` between its leading and its
      trailing whitespace. */
  function Trim(s: string): (r: string)
    ensures IsTrimmed(r)
    ensures |r| <= |s|
  {
    var i, j := LeadingWhitespace(s), |s| - TrailingWhitespace(s);
    if i < j then s[i..j] else []
  }

  /** Trimming keeps exactly the middle of `s`: `s` is some whitespace, then
      the result, then some whitespace. */
  lemma TrimIsMiddle(s: string)
    ensures var i := LeadingWhitespace(s);
      && i + |Trim(s)| <= |s| && Trim(s) == s[i..i + |Trim(s)|]
      && (forall k :: 0 <= k < i ==> IsWhitespace(s[k]))
      && (forall k :: i + |Trim(s)| <= k < |s| ==> IsWhitespace(s[k]))
  {
    LeadingWhitespaceSpec(s);
    TrailingWhitespaceSpec(s);
  }

  /** A string of whitespace only is all leading whitespace. */
  lemma {:induction false} LeadingWhitespaceAll(s: string)
    requires AllWhitespace(s)
    ensures LeadingWhitespace(s) == |s|
  {
    if |s| > 0 {
      assert forall k :: 0 <= k < |s| - 1 ==> s[1..][k] == s[k + 1];
      LeadingWhitespaceAll(s[1..]);
    }
  }

  /** A string of whitespace only is all trailing whitespace. */
  lemma {:induction false} TrailingWhitespaceAll(s: string)
    requires AllWhitespace(s)
    ensures TrailingWhitespace(s) == |s|
  {
    if |s| > 0 {
      assert forall k :: 0 <= k < |s| - 1 ==> s[..|s| - 1][k] == s[k];
      TrailingWhitespaceAll(s[..|s| - 1]);
    }
  }

  /** Leading whitespace of a concatenation: that of `a`, continued into `b`
      only when `a` is whitespace throughout. */
  lemma {:induction false} LeadingWhitespaceAppend(a: string, b: string)
    ensures LeadingWhitespace(a + b) ==
      if LeadingWhitespace(a) < |a| then LeadingWhitespace(a) else |a| + LeadingWhitespace(b)
  {
    if |a| == 0 {
      assert a + b == b;
    } else {
      assert (a + b)[0] == a[0];
      assert (a + b)[1..] == a[1..] + b;
      LeadingWhitespaceAppend(a[1..], b);
    }
  }

  /** Trailing whitespace of a concatenation: that of `b`, continued into `a`
      only when `b` is whitespace throughout. */
  lemma {:induction false} TrailingWhitespaceAppend(a: string, b: string)
    ensures TrailingWhitespace(a + b) ==
      if TrailingWhitespace(b) < |b| then TrailingWhitespace(b) else |b| + TrailingWhitespace(a)
  {
    if |b| == 0 {
      assert a + b == a;
    } else {
      var s := a + b;
      assert s[|s| - 1] == b[|b| - 1];
      assert s[..|s| - 1] == a + b[..|b| - 1];
      TrailingWhitespaceAppend(a, b[..|b| - 1]);
    }
  }

  /** A trimmed string is its own trim, and only a trimmed string is. */
  lemma TrimFixpoint(s: string)
    ensures Trim(s) == s <==> IsTrimmed(s)
  {
    if IsTrimmed(s) && s != [] {
      assert LeadingWhitespace(s) == 0 && TrailingWhitespace(s) == 0;
      assert s[0..|s|] == s;
    }
  }

  /** A string without whitespace is already trimmed. */
  lemma TrimNoWhitespace(s: string)
    requires NoWhitespace(s)
    ensures Trim(s) == s
  {
    TrimFixpoint(s);
  }

  /** Every character of `Trim(s)` is a character of `s`. */
  lemma TrimKeepsCharacters(s: string, c: char)
    ensures c in Trim(s) ==> c in s
  {
    var i, j := LeadingWhitespace(s), |s| - TrailingWhitespace(s);
    if i < j && c in Trim(s) {
      var k :| 0 <= k < j - i && s[i..j][k] == c;
      assert s[i + k] == c;
    }
  }

  /** An extra trailing whitespace character does not change the trim. */
  lemma TrimSnocWhitespace(s: string, c: char)
    requires IsWhitespace(c)
    ensures Trim(s + [c]) == Trim(s)
  {
    LeadingWhitespaceAppend(s, [c]);
    TrailingWhitespaceAppend(s, [c]);
    assert TrailingWhitespace([c]) == 1 by {
      assert [c][..0] == [];
    }
    var i, j := LeadingWhitespace(s), |s| - TrailingWhitespace(s);
    if i < j {
      assert (s + [c])[i..j] == s[i..j];
    }
  }

  /** Trimming a trimmed string surrounded by whitespace gives that string back. */
  lemma TrimPadded(pre: string, s: string, post: string)
    requires AllWhitespace(pre) && AllWhitespace(post) && IsTrimmed(s)
    ensures Trim(pre + s + post) == s
  {
    var x := pre + s + post;
    LeadingWhitespaceAll(pre);
    TrailingWhitespaceAll(post);
    assert x == pre + (s + post);
    LeadingWhitespaceAppend(pre, s + post);
    TrailingWhitespaceAppend(pre + s, post);
    if s == [] {
      assert s + post == post && pre + s == pre;
      LeadingWhitespaceAll(post);
    } else {
      LeadingWhitespaceAppend(s, post);
      TrailingWhitespaceAppend(pre, s);
      assert LeadingWhitespace(x) == |pre|;
      assert TrailingWhitespace(x) == |post|;
      assert x[|pre|..|pre| + |s|] == s;
    }
  }

  /** `s.startsWith(p)`. */
  predicate StartsWith(s: string, p: string) {
    |p| <= |s| && s[..|p|] == p
  }

  /** `sub` occurs in `s` starting at index `i`. */
  predicate OccursAt(s: string, sub: string, i: int) {
    0 <= i <= |s| - |sub| && s[i..i + |sub|] == sub
  }

  /** `s.includes(sub)`. */
  function Contains(s: string, sub: string): bool {
    StartsWith(s, sub) || (|s| > 0 && Contains(s[1..], sub))
  }

  /** `Contains` holds exactly when `sub` occurs at some position of `s`. */
  lemma {:induction false} ContainsSpec(s: string, sub: string)
    ensures Contains(s, sub) <==> exists i :: OccursAt(s, sub, i)
  {
    if StartsWith(s, sub) {
      assert OccursAt(s, sub, 0);
    } else if |s| > 0 {
      ContainsSpec(s[1..], sub);
      OccursAtStart(s, sub);
      forall i | OccursAt(s, sub, i) ensures OccursAt(s[1..], sub, i - 1) {
        ShiftedOccurrence(s, sub, i - 1);
      }
      forall i | OccursAt(s[1..], sub, i) ensures OccursAt(s, sub, i + 1) {
        ShiftedOccurrence(s, sub, i);
      }
    }
  }

  /** Dropping the first character moves every later occurrence one place left. */
  lemma ShiftedOccurrence(s: string, sub: string, i: nat)
    requires |s| > 0
    ensures OccursAt(s, sub, i + 1) <==> OccursAt(s[1..], sub, i)
  {
    if i + 1 <= |s| - |sub| {
      var a, b := s[1..][i..i + |sub|], s[i + 1..i + 1 + |sub|];
      assert forall j :: 0 <= j < |sub| ==> a[j] == b[j];
      assert a == b;
    }
  }

  /** An occurrence at position 0 is a prefix. */
  lemma OccursAtStart(s: string, sub: string)
    ensures OccursAt(s, sub, 0) <==> StartsWith(s, sub)
  {
    if |sub| <= |s| {
      assert s[0..|sub|] == s[..|sub|];
    }
  }

  /** The number of occurrences of `c` in `s`. */
  function Count(s: string, c: char): nat {
    if |s| == 0 then 0 else (if s[0] == c then 1 else 0) + Count(s[1..], c)
  }

  /** `s.split(sep)` for a one-character separator: always at least one piece,
      and no piece holds the separator. */
  function SplitOn(s: string, sep: char): (r: seq<string>)
    ensures |r| == Count(s, sep) + 1
    ensures forall k :: 0 <= k < |r| ==> sep !in r[k]
  {
    if |s| == 0 then [""]
    else
      var rest := SplitOn(s[1..], sep);
      if s[0] == sep then [""] + rest
      else [[s[0]] + rest[0]] + rest[1..]
  }

  /** `pieces.join(sep)`, the inverse of `SplitOn`. */
  function Join(pieces: seq<string>, sep: char): string
    requires |pieces| >= 1
  {
    if |pieces| == 1 then pieces[0] else pieces[0] + [sep] + Join(pieces[1..], sep)
  }

  /** Splitting and joining again gives back the original string. */
  lemma {:induction false} JoinSplit(s: string, sep: char)
    ensures Join(SplitOn(s, sep), sep) == s
  {
    if |s| > 0 {
      var rest := SplitOn(s[1..], sep);
      JoinSplit(s[1..], sep);
      if s[0] == sep {
        assert s == [sep] + s[1..];
      } else if |rest| == 1 {
        assert s == [s[0]] + s[1..];
      } else {
        assert rest == [rest[0]] + rest[1..];
        assert s == [s[0]] + s[1..];
      }
    }
  }

  /** Joining pieces free of the separator and splitting again gives the pieces. */
  lemma {:induction false} SplitJoin(pieces: seq<string>, sep: char)
    requires |pieces| >= 1
    requires forall k :: 0 <= k < |pieces| ==> sep !in pieces[k]
    ensures SplitOn(Join(pieces, sep), sep) == pieces
  {
    if |pieces| == 1 {
      SplitPlain(pieces[0], sep);
    } else {
      SplitJoin(pieces[1..], sep);
      SplitAppend(pieces[0], Join(pieces[1..], sep), sep);
      SplitPlain(pieces[0], sep);
    }
  }

  /** A string without the separator splits into itself. */
  lemma {:induction false} SplitPlain(s: string, sep: char)
    requires sep !in s
    ensures SplitOn(s, sep) == [s]
  {
    if |s| > 0 {
      SplitPlain(s[1..], sep);
      assert s == [s[0]] + s[1..];
    }
  }

  /** Splitting is compositional over a separator occurrence. */
  lemma {:induction false} SplitAppend(a: string, b: string, sep: char)
    ensures SplitOn(a + [sep] + b, sep) == SplitOn(a, sep) + SplitOn(b, sep)
  {
    var s := a + [sep] + b;
    if |a| == 0 {
      assert s[1..] == b;
    } else {
      assert s[1..] == a[1..] + [sep] + b;
      assert s[0] == a[0];
      SplitAppend(a[1..], b, sep);
    }
  }

  /** `s.replace(/\s+/g, "")`: the non-whitespace characters of `s`, in order. */
  function RemoveWhitespace(s: string): (r: string)
    ensures NoWhitespace(r)
    ensures |r| <= |s|
  {
    if |s| == 0 then []
    else if IsWhitespace(s[0]) then RemoveWhitespace(s[1..])
    else [s[0]] + RemoveWhitespace(s[1..])
  }

  lemma {:induction false} RemoveWhitespaceAppend(a: string, b: string)
    ensures RemoveWhitespace(a + b) == RemoveWhitespace(a) + RemoveWhitespace(b)
  {
    if |a| > 0 {
      assert (a + b)[1..] == a[1..] + b;
      assert (a + b)[0] == a[0];
      RemoveWhitespaceAppend(a[1..], b);
    } else {
      assert a + b == b;
    }
  }

  /** Removing whitespace leaves a whitespace-free string unchanged and
      empties an all-whitespace one. */
  lemma {:induction false} RemoveWhitespaceExtremes(s: string)
    ensures NoWhitespace(s) ==> RemoveWhitespace(s) == s
    ensures AllWhitespace(s) ==> RemoveWhitespace(s) == []
  {
    if |s| > 0 {
      RemoveWhitespaceExtremes(s[1..]);
      assert s == [s[0]] + s[1..];
    }
  }

  // ---- Positional notation: `Number.prototype.toString(radix)` on
  //      non-negative integers, and the digit strings `Number` reads back.

  predicate IsRadixDigit(c: char, radix: nat) {
    ('0' <= c <= '9' && (c as int) - ('0' as int) < radix) ||
    ('a' <= c <= 'z' && (c as int) - ('a' as int) + 10 < radix)
  }

  predicate AllRadixDigits(s: string, radix: nat) {
    forall k :: 0 <= k < |s| ==> IsRadixDigit(s[k], radix)
  }

  /** The lower-case digit JavaScript prints for `d`. */
  function DigitChar(d: nat, radix: nat): (c: char)
    requires d < radix <= 36
    ensures IsRadixDigit(c, radix)
  {
    if d < 10 then ((('0' as int) + d) as char) else ((('a' as int) + d - 10) as char)
  }

  function DigitValue(c: char, radix: nat): (d: nat)
    requires IsRadixDigit(c, radix)
    ensures d < radix
  {
    if '0' <= c <= '9' then (c as int) - ('0' as int) else (c as int) - ('a' as int) + 10
  }

  /** The value of a digit string, most significant digit first. */
  function FromRadix(s: string, radix: nat): nat
    requires AllRadixDigits(s, radix)
  {
    if |s| == 0 then 0
    else FromRadix(s[..|s| - 1], radix) * radix + DigitValue(s[|s| - 1], radix)
  }

  /** `n.toString(radix)` for a non-negative integer `n`: no leading zeros. */
  function ToRadix(n: nat, radix: nat): (s: string)
    requires 2 <= radix <= 36
    ensures |s| >= 1 && AllRadixDigits(s, radix)
    ensures |s| > 1 ==> s[0] != '0'
  {
    if n < radix then [DigitChar(n, radix)]
    else
      DivShrinks(n, radix);
      var p := ToRadix(n / radix, radix);
      var s := p + [DigitChar(n % radix, radix)];
      assert s[0] == p[0];
      assert forall k :: 0 <= k < |p| ==> s[k] == p[k];
      s
  }

  /** Reading back a printed number gives the number. */
  lemma {:induction false} FromToRadix(n: nat, radix: nat)
    requires 2 <= radix <= 36
    ensures FromRadix(ToRadix(n, radix), radix) == n
  {
    if n < radix {
      SingleDigit(n, radix);
    } else {
      DivShrinks(n, radix);
      FromToRadix(n / radix, radix);
      LastDigit(n, radix);
    }
  }

  /** The round trip for a number printed as one digit. */
  lemma SingleDigit(n: nat, radix: nat)
    requires 2 <= radix <= 36 && n < radix
    ensures FromRadix(ToRadix(n, radix), radix) == n
  {
    var c := DigitChar(n, radix);
    assert ToRadix(n, radix) == [c];
    assert [c][..0] == [];
    DigitRoundTrip(n, radix);
  }

  /** One step of the round trip: printing `n` appends the digit of `n % radix`
      to the printing of `n / radix`. */
  lemma LastDigit(n: nat, radix: nat)
    requires 2 <= radix <= 36 && n >= radix
    requires FromRadix(ToRadix(n / radix, radix), radix) == n / radix
    ensures FromRadix(ToRadix(n, radix), radix) == n
  {
    var q, d := n / radix, n % radix;
    var p := ToRadix(q, radix);
    assert ToRadix(n, radix) == p + [DigitChar(d, radix)];
    FromRadixSnoc(p, DigitChar(d, radix), radix);
    DigitRoundTrip(d, radix);
    DivMod(n, radix);
  }

  lemma DivShrinks(n: nat, radix: nat)
    requires 2 <= radix && n >= radix
    ensures 1 <= n / radix < n
  {
    var q := n / radix;
    assert q * radix <= n < (q + 1) * radix;
    assert q * 2 <= q * radix;
  }

  lemma DivMod(n: nat, radix: nat)
    requires 2 <= radix
    ensures (n / radix) * radix + n % radix == n
  {
  }

  lemma FromRadixSnoc(p: string, c: char, radix: nat)
    requires AllRadixDigits(p, radix) && IsRadixDigit(c, radix)
    ensures AllRadixDigits(p + [c], radix)
    ensures FromRadix(p + [c], radix) == FromRadix(p, radix) * radix + DigitValue(c, radix)
  {
    assert (p + [c])[..|p|] == p;
  }

  lemma DigitRoundTrip(d: nat, radix: nat)
    requires d < radix <= 36
    ensures DigitValue(DigitChar(d, radix), radix) == d
  {
  }

  /** A non-empty occurrence starts with a character of `s`. */
  lemma ContainsHead(s: string, sub: string)
    requires sub != []
    ensures Contains(s, sub) ==> sub[0] in s
  {
    ContainsSpec(s, sub);
    if Contains(s, sub) {
      var i :| OccursAt(s, sub, i);
      assert s[i] == s[i..i + |sub|][0];
    }
  }

  /** An occurrence of `sub` in `a + [c] + b`, where `c` is not a character
      of `sub`, lies wholly inside `a` or wholly inside `b`. */
  lemma ContainsAround(a: string, c: char, b: string, sub: string)
    requires c !in sub
    ensures Contains(a + [c] + b, sub) ==> Contains(a, sub) || Contains(b, sub)
  {
    var s := a + [c] + b;
    ContainsSpec(s, sub);
    if Contains(s, sub) {
      var i :| OccursAt(s, sub, i);
      OccurrenceCharacters(s, sub, i);
      assert s[|a|] == c;
      if i + |sub| <= |a| {
        SliceOfLeft(a, [c] + b, i, |sub|);
        assert s == a + ([c] + b);
        assert OccursAt(a, sub, i);
        ContainsSpec(a, sub);
      } else {
        assert i > |a|;
        SliceOfRight(a + [c], b, i, |sub|);
        assert OccursAt(b, sub, i - |a| - 1);
        ContainsSpec(b, sub);
      }
    }
  }

  /** A slice lying inside the left part of a concatenation. */
  lemma SliceOfLeft(a: string, b: string, i: nat, n: nat)
    requires i + n <= |a|
    ensures (a + b)[i..i + n] == a[i..i + n]
  {
    var x, y := (a + b)[i..i + n], a[i..i + n];
    forall j | 0 <= j < n ensures x[j] == y[j] {
      assert (a + b)[i + j] == a[i + j];
    }
  }

  /** A slice lying inside the right part of a concatenation. */
  lemma SliceOfRight(a: string, b: string, i: nat, n: nat)
    requires |a| <= i && i + n <= |a| + |b|
    ensures (a + b)[i..i + n] == b[i - |a|..i - |a| + n]
  {
    var x, y := (a + b)[i..i + n], b[i - |a|..i - |a| + n];
    forall j | 0 <= j < n ensures x[j] == y[j] {
      assert (a + b)[i + j] == b[i - |a| + j];
    }
  }

  /** The characters an occurrence covers are characters of `sub`. */
  lemma OccurrenceCharacters(s: string, sub: string, i: int)
    requires OccursAt(s, sub, i)
    ensures forall j :: i <= j < i + |sub| ==> s[j] in sub
  {
    forall j | i <= j < i + |sub| ensures s[j] in sub {
      assert s[j] == s[i..i + |sub|][j - i];
    }
  }

  /** An occurrence of a separator-free `sub` in a joined string lies inside
      one of the pieces. */
  lemma {:induction false} JoinContains(pieces: seq<string>, sep: char, sub: string)
    requires |pieces| >= 1 && sep !in sub
    ensures Contains(Join(pieces, sep), sub) ==> exists k :: 0 <= k < |pieces| && Contains(pieces[k], sub)
  {
    if |pieces| > 1 {
      ContainsAround(pieces[0], sep, Join(pieces[1..], sep), sub);
      JoinContains(pieces[1..], sep, sub);
      if Contains(Join(pieces[1..], sep), sub) {
        var k :| 0 <= k < |pieces| - 1 && Contains(pieces[1..][k], sub);
        assert pieces[k + 1] == pieces[1..][k];
      }
    }
  }

  /** A character that is not the separator and occurs in no piece does not
      occur in the joined string. */
  lemma {:induction false} JoinAvoids(pieces: seq<string>, sep: char, c: char)
    requires |pieces| >= 1 && c != sep
    requires forall k :: 0 <= k < |pieces| ==> c !in pieces[k]
    ensures c !in Join(pieces, sep)
  {
    if |pieces| > 1 {
      forall k | 0 <= k < |pieces| - 1 ensures c !in pieces[1..][k] {
        assert pieces[1..][k] == pieces[k + 1];
      }
      JoinAvoids(pieces[1..], sep, c);
      assert c !in pieces[0];
    }
  }

  /** A join whose last piece is empty ends with the separator. */
  lemma {:induction false} JoinEndsWithSeparator(pieces: seq<string>, sep: char)
    requires |pieces| >= 2 && pieces[|pieces| - 1] == []
    ensures var s := Join(pieces, sep); |s| > 0 && s[|s| - 1] == sep
  {
    if |pieces| > 2 {
      assert pieces[1..][|pieces| - 2] == [];
      JoinEndsWithSeparator(pieces[1..], sep);
    } else {
      assert pieces[1..] == [[]];
    }
  }

}
