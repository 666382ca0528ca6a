/** String and integer-text primitives with the semantics of Go's `strings` and
    `strconv` packages, as far as the modelled code relies on them.  Strings are
    sequences of code points; case mapping and white-space classes are the ASCII
    and Unicode ones named below. */
module GoStrings {

  predicate IsDigit(c: char) { '0' <= c <= '9' }

  predicate AllDigits(s: string) { forall i :: 0 <= i < |s| ==> IsDigit(s[i]) }

  /** strings.HasPrefix */
  predicate HasPrefix(s: string, p: string) { |p| <= |s| && s[..|p|] == p }

  /** strings.HasSuffix */
  predicate HasSuffix(s: string, p: string) { |p| <= |s| && s[|s| - |p|..] == p }

  /** strings.Contains */
  predicate Contains(s: string, sub: string) {
    exists i :: 0 <= i <= |s| - |sub| && OccursAt(s, sub, i)
  }

  predicate OccursAt(s: string, sub: string, i: int)
    requires 0 <= i <= |s| - |sub|
  {
    s[i..i + |sub|] == sub
  }

  lemma ContainsChar(s: string, c: char)
    ensures Contains(s, [c]) <==> c in s
  {
    if c in s {
      var i :| 0 <= i < |s| && s[i] == c;
      assert OccursAt(s, [c], i);
    }
    if Contains(s, [c]) {
      var i :| 0 <= i <= |s| - 1 && OccursAt(s, [c], i);
      assert s[i..i + 1][0] == c;
    }
  }

  lemma ContainsNeedsChar(s: string, sub: string, c: char)
    requires c in sub && c !in s
    ensures !Contains(s, sub)
  {
    var j :| 0 <= j < |sub| && sub[j] == c;
    forall i | 0 <= i <= |s| - |sub| ensures !OccursAt(s, sub, i) {
      assert s[i..i + |sub|][j] == s[i + j] != c;
    }
  }

  /** Position of the first `c` in `s`, or -1 (strings.IndexByte). */
  function IndexOf(s: string, c: char): (i: int)
    ensures -1 <= i < |s|
    ensures i == -1 <==> c !in s
    ensures i >= 0 ==> s[i] == c && c !in s[..i]
  {
    if |s| == 0 then -1
    else if s[0] == c then 0
    else
      var j := IndexOf(s[1..], c);
      if j < 0 then -1
      else
        assert s[..j + 1] == [s[0]] + s[1..][..j];
        j + 1
  }

  /** strings.Split with a one-character separator. */
  function Split(s: string, sep: char): (parts: seq<string>)
    ensures |parts| >= 1
    decreases |s|
  {
    var i := IndexOf(s, sep);
    if i < 0 then [s] else [s[..i]] + Split(s[i + 1..], sep)
  }

  lemma SplitNoSeparator(s: string, sep: char)
    requires sep !in s
    ensures Split(s, sep) == [s]
  {
  }

  /** strings.Join */
  function Join(parts: seq<string>, sep: string): string
  {
    if |parts| == 0 then ""
    else if |parts| == 1 then parts[0]
    else parts[0] + sep + Join(parts[1..], sep)
  }

  function Last<T>(s: seq<T>): T
    requires |s| > 0
  {
    s[|s| - 1]
  }

  /** No part of a split contains the separator. */
  lemma {:induction false} SplitPartsFree(s: string, sep: char)
    ensures forall p :: p in Split(s, sep) ==> sep !in p
    decreases |s|
  {
    var i := IndexOf(s, sep);
    if i >= 0 {
      SplitPartsFree(s[i + 1..], sep);
    }
  }

  /** Joining the parts of a split gives back the string. */
  lemma {:induction false} JoinSplit(s: string, sep: char)
    ensures Join(Split(s, sep), [sep]) == s
    decreases |s|
  {
    var i := IndexOf(s, sep);
    if i >= 0 {
      JoinSplit(s[i + 1..], sep);
      JoinCons(s[..i], Split(s[i + 1..], sep), [sep]);
      assert s == s[..i] + [sep] + s[i + 1..];
    }
  }

  lemma JoinCons(p: string, rest: seq<string>, sep: string)
    requires |rest| >= 1
    ensures Join([p] + rest, sep) == p + sep + Join(rest, sep)
  {
    assert ([p] + rest)[1..] == rest;
  }

  /** Splitting a join of separator-free parts gives back the parts. */
  lemma {:induction false} SplitJoin(parts: seq<string>, sep: char)
    requires |parts| >= 1
    requires forall p :: p in parts ==> sep !in p
    ensures Split(Join(parts, [sep]), sep) == parts
    decreases |parts|
  {
    if |parts| == 1 {
      SplitNoSeparator(parts[0], sep);
    } else {
      var rest := Join(parts[1..], [sep]);
      assert Join(parts, [sep]) == parts[0] + [sep] + rest;
      SplitAt(parts[0], sep, rest);
      SplitJoin(parts[1..], sep);
      assert parts == [parts[0]] + parts[1..];
    }
  }

  /** Three separator-free parts joined by ':' split back into them. */
  lemma SplitThree(a: string, b: string, c: string)
    requires ':' !in a && ':' !in b && ':' !in c
    ensures Split(a + ":" + b + ":" + c, ':') == [a, b, c]
  {
    assert a + ":" + b + ":" + c == a + [':'] + (b + [':'] + c);
    SplitAt(a, ':', b + [':'] + c);
    SplitAt(b, ':', c);
    SplitNoSeparator(c, ':');
  }

  /** A separator-free head and the separator split off first. */
  lemma SplitAt(a: string, sep: char, b: string)
    requires sep !in a
    ensures Split(a + [sep] + b, sep) == [a] + Split(b, sep)
  {
    var s := a + [sep] + b;
    IndexAfterFree(a, sep, b);
    assert s[..|a|] == a && s[|a| + 1..] == b;
  }

  /** The first part of a split is taken from the string. */
  lemma SplitFirstIsPrefix(s: string, sep: char)
    ensures forall c :: c in Split(s, sep)[0] ==> c in s
  {
    var i := IndexOf(s, sep);
    if i >= 0 {
      assert Split(s, sep)[0] == s[..i];
    }
  }

  /** The last part of a split is what follows the last separator. */
  lemma SplitLastAfter(a: string, sep: char, b: string)
    requires sep !in b
    ensures Last(Split(a + [sep] + b, sep)) == b
  {
    SplitSnoc(a, sep, b);
  }

  /** A last part without the separator splits off on its own. */
  lemma {:induction false} SplitSnoc(a: string, sep: char, b: string)
    requires sep !in b
    ensures Split(a + [sep] + b, sep) == Split(a, sep) + [b]
    decreases |a|
  {
    if sep !in a {
      SplitAt(a, sep, b);
      SplitNoSeparator(b, sep);
      SplitNoSeparator(a, sep);
    } else {
      var k := IndexOf(a, sep);
      var head, rest := a[..k], a[k + 1..];
      assert a == head + [sep] + rest;
      Regroup(head, rest, sep, b);
      SplitAt(head, sep, rest + [sep] + b);
      SplitAt(head, sep, rest);
      SplitSnoc(rest, sep, b);
    }
  }

  lemma Regroup(head: string, rest: string, sep: char, b: string)
    ensures (head + [sep] + rest) + [sep] + b == head + [sep] + (rest + [sep] + b)
  {
  }

  lemma IndexAfterFree(a: string, c: char, b: string)
    requires c !in a
    ensures IndexOf(a + [c] + b, c) == |a|
  {
    var s := a + [c] + b;
    assert s[|a|] == c;
    assert s[..|a|] == a;
    assert forall j :: 0 <= j < |a| ==> s[j] == a[j];
  }

  /** The number of parts is one more than the number of separators. */
  function Count(s: string, c: char): nat
  {
    if |s| == 0 then 0 else (if s[0] == c then 1 else 0) + Count(s[1..], c)
  }

  lemma {:induction false} CountSplit(s: string, sep: char)
    ensures |Split(s, sep)| == Count(s, sep) + 1
    decreases |s|
  {
    var i := IndexOf(s, sep);
    if i < 0 {
      CountFree(s, sep);
    } else {
      CountSplit(s[i + 1..], sep);
      CountConcat(s[..i], s[i..], sep);
      CountFree(s[..i], sep);
      assert s[i..] == [sep] + s[i + 1..];
      CountConcat([sep], s[i + 1..], sep);
      assert s == s[..i] + s[i..];
    }
  }

  lemma {:induction false} CountFree(s: string, c: char)
    requires c !in s
    ensures Count(s, c) == 0
    decreases |s|
  {
    if |s| > 0 {
      CountFree(s[1..], c);
    }
  }

  lemma {:induction false} CountConcat(a: string, b: string, c: char)
    ensures Count(a + b, c) == Count(a, c) + Count(b, c)
    decreases |a|
  {
    if |a| > 0 {
      assert (a + b)[1..] == a[1..] + b;
      CountConcat(a[1..], b, c);
    } else {
      assert a + b == b;
    }
  }

  /** ASCII case mapping (strings.ToLower restricted to ASCII letters). */
  function LowerChar(c: char): char
  {
    if 'A' <= c <= 'Z' then (c as int + 32) as char else c
  }

  function ToLower(s: string): (r: string)
    ensures |r| == |s|
    ensures forall i :: 0 <= i < |s| ==> r[i] == LowerChar(s[i])
  {
    seq(|s|, i requires 0 <= i < |s| => LowerChar(s[i]))
  }

  /** A string without upper-case ASCII letters is its own lower case. */
  lemma ToLowerOfLower(s: string)
    requires forall i :: 0 <= i < |s| ==> !('A' <= s[i] <= 'Z')
    ensures ToLower(s) == s
  {
    assert forall i :: 0 <= i < |s| ==> ToLower(s)[i] == s[i];
  }

  lemma ToLowerIdempotent(s: string)
    ensures ToLower(ToLower(s)) == ToLower(s)
  {
  }

  /** unicode.IsSpace */
  predicate IsSpace(c: char)
  {
    c == '\t' || c == '\n' || c == '\U{000B}' || c == '\U{000C}' || c == '\r' || c == ' '
    || c == '\U{0085}' || c == '\U{00A0}' || c == '\U{1680}'
    || ('\U{2000}' <= c <= '\U{200A}') || c == '\U{2028}' || c == '\U{2029}'
    || c == '\U{202F}' || c == '\U{205F}' || c == '\U{3000}'
  }

  /** The cut sets the modelled code trims: Unicode white space
      (strings.TrimSpace) and the single blank (strings.Trim(s, " ")). */
  datatype CutSet = WhiteSpace | Blank

  predicate InCutSet(c: char, cut: CutSet)
  {
    match cut
    case WhiteSpace => IsSpace(c)
    case Blank => c == ' '
  }

  function TrimLeftBy(s: string, cut: CutSet): (r: string)
    ensures |r| <= |s| && r == s[|s| - |r|..]
    ensures |r| > 0 ==> !InCutSet(r[0], cut)
  {
    if |s| > 0 && InCutSet(s[0], cut) then TrimLeftBy(s[1..], cut) else s
  }

  function TrimRightBy(s: string, cut: CutSet): (r: string)
    ensures |r| <= |s| && r == s[..|r|]
    ensures |r| > 0 ==> !InCutSet(r[|r| - 1], cut)
  {
    if |s| > 0 && InCutSet(s[|s| - 1], cut) then TrimRightBy(s[..|s| - 1], cut) else s
  }

  /** strings.TrimSpace */
  function TrimSpace(s: string): string
  {
    TrimRightBy(TrimLeftBy(s, WhiteSpace), WhiteSpace)
  }

  lemma {:induction false} TrimLeftDropped(s: string, cut: CutSet)
    ensures forall i :: 0 <= i < |s| - |TrimLeftBy(s, cut)| ==> InCutSet(s[i], cut)
    decreases |s|
  {
    if |s| > 0 && InCutSet(s[0], cut) {
      TrimLeftDropped(s[1..], cut);
      assert forall i :: 1 <= i < |s| ==> s[i] == s[1..][i - 1];
    }
  }

  lemma {:induction false} TrimRightDropped(s: string, cut: CutSet)
    ensures forall i :: |TrimRightBy(s, cut)| <= i < |s| ==> InCutSet(s[i], cut)
    decreases |s|
  {
    if |s| > 0 && InCutSet(s[|s| - 1], cut) {
      TrimRightDropped(s[..|s| - 1], cut);
      assert forall i :: 0 <= i < |s| - 1 ==> s[i] == s[..|s| - 1][i];
    }
  }

  /** TrimSpace yields "" exactly for all-white-space input. */
  lemma TrimSpaceEmpty(s: string)
    ensures TrimSpace(s) == "" <==> forall i :: 0 <= i < |s| ==> IsSpace(s[i])
  {
    var l := TrimLeftBy(s, WhiteSpace);
    TrimLeftDropped(s, WhiteSpace);
    TrimRightDropped(l, WhiteSpace);
    if l != "" {
      assert !InCutSet(l[0], WhiteSpace);
      assert l[0] == s[|s| - |l|];
    }
    if TrimSpace(s) == "" {
      assert l == "";
    }
  }

  /** strings.Trim(s, " ") */
  function TrimBlanks(s: string): string
  {
    TrimRightBy(TrimLeftBy(s, Blank), Blank)
  }

  lemma TrimBlanksNoBlank(s: string)
    requires ' ' !in s
    ensures TrimBlanks(s) == s
  {
  }

  /** strings.Replace(s, old, "", 1) for a one-character `old`: drop its first occurrence. */
  function RemoveFirst(s: string, c: char): (r: string)
    ensures c !in s ==> r == s
    ensures c in s ==> |r| == |s| - 1
  {
    var i := IndexOf(s, c);
    if i < 0 then s else s[..i] + s[i + 1..]
  }

  /** strings.Replace(s, pat, repl, -1): every non-overlapping occurrence of
      `pat`, scanning from the left, becomes `repl`. */
  function ReplaceAll(s: string, pat: string, repl: string): string
    requires |pat| > 0
    decreases |s|
  {
    if |s| < |pat| then s
    else if s[..|pat|] == pat then repl + ReplaceAll(s[|pat|..], pat, repl)
    else [s[0]] + ReplaceAll(s[1..], pat, repl)
  }

  /** Replacing a string that does not occur changes nothing. */
  lemma {:induction false} ReplaceAllAbsent(s: string, pat: string, repl: string)
    requires |pat| > 0 && !Contains(s, pat)
    ensures ReplaceAll(s, pat, repl) == s
    decreases |s|
  {
    if |s| >= |pat| {
      assert !OccursAt(s, pat, 0);
      assert s[..|pat|] != pat;
      forall i | 0 <= i <= |s[1..]| - |pat| ensures !OccursAt(s[1..], pat, i) {
        assert !OccursAt(s, pat, i + 1);
        assert s[1..][i..i + |pat|] == s[i + 1..i + 1 + |pat|];
      }
      ReplaceAllAbsent(s[1..], pat, repl);
      assert s == [s[0]] + s[1..];
    }
  }

  function DigitChar(d: int): char
    requires 0 <= d < 10
  {
    "0123456789"[d]
  }

  /** Decimal digits of a non-negative number. */
  function NatText(n: nat): (r: string)
    ensures |r| >= 1 && AllDigits(r)
    decreases n
  {
    if n < 10 then [DigitChar(n)] else NatText(n / 10) + [DigitChar(n % 10)]
  }

  /** strconv.Itoa */
  function Itoa(n: int): string
  {
    if n < 0 then "-" + NatText(-n) else NatText(n)
  }

  function Pow10(k: nat): (p: nat)
    ensures p >= 1
  {
    if k == 0 then 1 else 10 * Pow10(k - 1)
  }

  /** A natural number has k digits exactly when it lies in [10^(k-1), 10^k). */
  lemma {:induction false} NatTextLength(n: nat, k: nat)
    requires k >= 1
    ensures |NatText(n)| == k <==> (k == 1 || Pow10(k - 1) <= n) && n < Pow10(k)
    decreases n
  {
    if n >= 10 {
      if k >= 2 {
        NatTextLength(n / 10, k - 1);
        assert Pow10(k - 1) == 10 * Pow10(k - 2);
        assert Pow10(k) == 10 * Pow10(k - 1);
        assert (Pow10(k - 2) <= n / 10 <==> 10 * Pow10(k - 2) <= n);
        assert (n / 10 < Pow10(k - 1) <==> n < 10 * Pow10(k - 1));
      } else {
        assert |NatText(n)| == |NatText(n / 10)| + 1;
      }
    } else {
      if k >= 2 {
        Pow10Grows(k - 1);
      }
    }
  }

  lemma {:induction false} Pow10Grows(k: nat)
    requires k >= 1
    ensures Pow10(k) >= 10
  {
    if k > 1 {
      Pow10Grows(k - 1);
    }
  }

  /** Value of a digit string. */
  function DigitsValue(s: string): nat
    requires AllDigits(s)
  {
    if |s| == 0 then 0 else 10 * DigitsValue(s[..|s| - 1]) + (s[|s| - 1] as int - '0' as int)
  }

  const MinInt64: int := -0x8000_0000_0000_0000
  const MaxInt64: int := 0x7FFF_FFFF_FFFF_FFFF

  /** strconv.ParseInt(s, 10, 64): optional sign, at least one decimal digit,
      value within the 64-bit range; None is the error result. */
  function ParseInt(s: string): (r: Option<int>)
    ensures r.Some? ==> MinInt64 <= r.value <= MaxInt64
  {
    var neg := |s| > 0 && s[0] == '-';
    var digits := if |s| > 0 && (s[0] == '-' || s[0] == '+') then s[1..] else s;
    if |digits| == 0 || !AllDigits(digits) then None
    else
      var mag: int := DigitsValue(digits);
      var v: int := if neg then -mag else mag;
      if MinInt64 <= v <= MaxInt64 then Some(v) else None
  }

  /** strconv.Atoi on a 64-bit platform has the same accept set and value as ParseInt(s, 10, 64). */
  function Atoi(s: string): Option<int>
  {
    ParseInt(s)
  }

  /** strconv.ParseBool */
  function ParseBool(s: string): (r: Option<bool>)
    ensures r == Some(true) <==> s in ["1", "t", "T", "TRUE", "true", "True"]
    ensures r == Some(false) <==> s in ["0", "f", "F", "FALSE", "false", "False"]
  {
    if s in ["1", "t", "T", "TRUE", "true", "True"] then Some(true)
    else if s in ["0", "f", "F", "FALSE", "false", "False"] then Some(false)
    else None
  }

  /** Reading back the decimal text of a natural gives the natural. */
  lemma {:induction false} DigitsNatText(n: nat)
    ensures DigitsValue(NatText(n)) == n
    decreases n
  {
    if n >= 10 {
      DigitsNatText(n / 10);
      var t := NatText(n);
      assert t[..|t| - 1] == NatText(n / 10);
      assert t[|t| - 1] == DigitChar(n % 10);
    }
  }

  /** strconv.Atoi reads back what strconv.Itoa writes, over the 64-bit range. */
  lemma AtoiItoa(n: int)
    requires MinInt64 <= n <= MaxInt64
    ensures Atoi(Itoa(n)) == Some(n)
  {
    if n < 0 {
      DigitsNatText(-n);
      ParseNegative(NatText(-n));
    } else {
      DigitsNatText(n);
      ParseDigits(NatText(n));
    }
  }

  /** ParseInt of a digit string in range is its value. */
  lemma ParseDigits(t: string)
    requires |t| >= 1 && AllDigits(t) && DigitsValue(t) <= MaxInt64
    ensures ParseInt(t) == Some(DigitsValue(t))
  {
    assert t[0] != '-' && t[0] != '+';
  }

  /** ParseInt of '-' and a digit string in range is the negated value. */
  lemma ParseNegative(t: string)
    requires |t| >= 1 && AllDigits(t) && DigitsValue(t) <= -MinInt64
    ensures ParseInt("-" + t) == Some(-(DigitsValue(t) as int))
  {
    assert ("-" + t)[1..] == t;
  }

  datatype Option<+T> = None | Some(value: T)
}
