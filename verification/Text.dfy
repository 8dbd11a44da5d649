/** The string operations the agents rely on: trimming, folding, decimal text and session titles. */
module Text {
  import opened Prelude

  /** The characters Python's `str.strip` and the regex class `\s` treat as white space. */
  predicate IsSpace(c: char) {
    var n := c as int;
    9 <= n <= 13 || 28 <= n <= 32 || n == 0x85 || n == 0xA0 || n == 0x1680 ||
    0x2000 <= n <= 0x200A || n == 0x2028 || n == 0x2029 || n == 0x202F || n == 0x205F || n == 0x3000
  }

  predicate IsDigit(c: char) { '0' <= c <= '9' }

  function StripLeft(s: string): string {
    if |s| > 0 && IsSpace(s[0]) then StripLeft(s[1..]) else s
  }

  function StripRight(s: string): string {
    if |s| > 0 && IsSpace(s[|s| - 1]) then StripRight(s[..|s| - 1]) else s
  }

  function Strip(s: string): string { StripRight(StripLeft(s)) }

  predicate Blank(s: string) { Strip(s) == "" }

  /** ASCII case folding. */
  function Fold(s: string): string {
    if |s| == 0 then "" else [FoldChar(s[0])] + Fold(s[1..])
  }

  function FoldChar(c: char): char {
    if 'A' <= c <= 'Z' then (c as int + 32) as char else c
  }

  /** Code-point lexicographic order. */
  predicate StrLe(a: string, b: string) {
    |a| == 0 || (|b| > 0 && (a[0] < b[0] || (a[0] == b[0] && StrLe(a[1..], b[1..]))))
  }

  predicate Contains(part: string, s: string) {
    part <= s || (|s| > 0 && Contains(part, s[1..]))
  }

  lemma {:induction false} ContainsIff(part: string, s: string)
    ensures Contains(part, s) <==> exists a, b :: s == a + part + b
  {
    if part <= s {
      assert s == "" + part + s[|part|..];
    } else if |s| > 0 {
      ContainsIff(part, s[1..]);
      if a, b :| s[1..] == a + part + b { assert s == ([s[0]] + a) + part + b; }
      if a, b :| s == a + part + b {
        assert |a| > 0;
        assert s[1..] == a[1..] + part + b;
      }
    } else {
      assert forall a, b :: |a + part + b| >= |part|;
    }
  }

  lemma {:induction false} StrLeTotal(a: string, b: string)
    ensures StrLe(a, b) || StrLe(b, a)
    ensures StrLe(a, b) && StrLe(b, a) ==> a == b
  {
    if |a| == 0 || |b| == 0 || a[0] != b[0] {
    } else {
      StrLeTotal(a[1..], b[1..]);
      assert a == [a[0]] + a[1..] && b == [b[0]] + b[1..];
    }
  }

  lemma {:induction false} StrLeTransitive(a: string, b: string, c: string)
    requires StrLe(a, b) && StrLe(b, c)
    ensures StrLe(a, c)
  {
    if |a| == 0 || a[0] < b[0] || b[0] < c[0] {
    } else {
      StrLeTransitive(a[1..], b[1..], c[1..]);
    }
  }

  // ---- Trimming ----

  lemma {:induction false} StripRightProps(s: string)
    ensures StripRight(s) <= s
    ensures |StripRight(s)| > 0 ==> !IsSpace(StripRight(s)[|StripRight(s)| - 1])
  {
    if |s| > 0 && IsSpace(s[|s| - 1]) { StripRightProps(s[..|s| - 1]); }
  }

  lemma {:induction false} StripLeftProps(s: string)
    ensures |StripLeft(s)| > 0 ==> !IsSpace(StripLeft(s)[0])
  {
    if |s| > 0 && IsSpace(s[0]) { StripLeftProps(s[1..]); }
  }

  lemma StripFixed(s: string)
    requires |s| > 0 ==> !IsSpace(s[0]) && !IsSpace(s[|s| - 1])
    ensures Strip(s) == s
  {}

  lemma StripIdempotent(s: string)
    ensures Strip(Strip(s)) == Strip(s)
  {
    StripLeftProps(s);
    StripRightProps(StripLeft(s));
    StripFixed(Strip(s));
  }

  lemma {:induction false} StripLeftAppend(s: string, c: char)
    requires IsSpace(c)
    ensures StripLeft(s + [c]) == if StripLeft(s) == "" then "" else StripLeft(s) + [c]
  {
    if |s| == 0 {
      assert s + [c] == [c] && [c][1..] == "";
    } else {
      assert (s + [c])[1..] == s[1..] + [c];
      if IsSpace(s[0]) { StripLeftAppend(s[1..], c); }
    }
  }

  lemma StripDropsTrailingSpace(s: string)
    ensures Strip(s + " ") == Strip(s)
  {
    StripLeftAppend(s, ' ');
    var l := StripLeft(s);
    assert (l + " ")[..|l|] == l;
  }

  // ---- Decimal text ----

  function Digit(d: nat): char
    requires d < 10
  {
    ('0' as int + d) as char
  }

  function Dec(n: nat): string {
    if n < 10 then [Digit(n)] else Dec(n / 10) + [Digit(n % 10)]
  }

  predicate AllDigits(s: string) { forall i | 0 <= i < |s| :: IsDigit(s[i]) }

  function ParseDec(s: string): nat
    requires AllDigits(s)
  {
    if |s| == 0 then 0
    else 10 * ParseDec(s[..|s| - 1]) + (s[|s| - 1] as int - '0' as int)
  }

  lemma {:induction false} DecRoundTrip(n: nat)
    ensures AllDigits(Dec(n)) && |Dec(n)| > 0 && ParseDec(Dec(n)) == n
  {
    if n < 10 {
      assert Dec(n)[..0] == "";
    } else {
      DecRoundTrip(n / 10);
      assert Dec(n)[..|Dec(n)| - 1] == Dec(n / 10);
    }
  }

  function DecInt(n: int): string { if n < 0 then "-" + Dec(-n) else Dec(n) }

  // ---- Session titles ----

  predicate EndsWith(s: string, t: string) { |t| <= |s| && s[|s| - |t|..] == t }

  function DropDigits(s: string): string {
    if |s| > 0 && IsDigit(s[|s| - 1]) then DropDigits(s[..|s| - 1]) else s
  }

  /** What precedes a trailing "(session i of n)", when the text ends in one. */
  function BeforeSuffix(s: string): Option<string> {
    var r := StripRight(s);
    if !EndsWith(r, ")") then None else
    var a := r[..|r| - 1];
    var b := DropDigits(a);
    if |b| == |a| || !EndsWith(b, " of ") then None else
    var c := b[..|b| - 4];
    var d := DropDigits(c);
    if |d| == |c| || !EndsWith(d, "(session ") then None else Some(d[..|d| - 9])
  }

  function BaseTitle(title: string): string {
    match BeforeSuffix(title)
    case Some(front) => Strip(front)
    case None => Strip(title)
  }

  function SessionSuffix(i: int, n: int): string { " (session " + DecInt(i) + " of " + DecInt(n) + ")" }

  lemma SessionSuffixCloses(i: int, n: int)
    ensures |SessionSuffix(i, n)| > 0 && SessionSuffix(i, n)[|SessionSuffix(i, n)| - 1] == ')'
  {}

  /** The title a task carries: numbered only when its work spans several sessions. */
  function PrintedTitle(title: string, i: int, n: int): string {
    if n > 1 then title + SessionSuffix(i, n) else title
  }

  lemma {:induction false} DropDigitsOf(front: string, digits: string)
    requires AllDigits(digits)
    requires |front| > 0 && !IsDigit(front[|front| - 1])
    ensures DropDigits(front + digits) == front
  {
    if |digits| == 0 {
      assert front + digits == front;
    } else {
      var s := front + digits;
      assert s[|s| - 1] == digits[|digits| - 1];
      assert s[..|s| - 1] == front + digits[..|digits| - 1];
      DropDigitsOf(front, digits[..|digits| - 1]);
    }
  }

  lemma EndsWithAppended(s: string, t: string)
    ensures EndsWith(s + t, t) && (s + t)[..|s|] == s
  {}

  lemma PrintedInPieces(title: string, i: nat, n: nat)
    ensures title + SessionSuffix(i, n) == (((((title + " ") + "(session ") + Dec(i)) + " of ") + Dec(n)) + ")"
  {}

  lemma BeforeSuffixOf(front: string, i: string, n: string)
    requires AllDigits(i) && AllDigits(n) && |i| > 0 && |n| > 0
    ensures BeforeSuffix(((((front + "(session ") + i) + " of ") + n) + ")") == Some(front)
  {
    var d := front + "(session ";
    var c := d + i;
    var b := c + " of ";
    var a := b + n;
    EndsWithAppended(a, ")");
    assert StripRight(a + ")") == a + ")";
    DropDigitsOf(b, n);
    EndsWithAppended(c, " of ");
    DropDigitsOf(d, i);
    EndsWithAppended(front, "(session ");
  }

  /** Printing a session number and stripping it again recovers the trimmed title, whatever the title is. */
  lemma BaseTitleOfPrinted(title: string, i: nat, n: int)
    requires n > 1
    ensures BaseTitle(PrintedTitle(title, i, n)) == Strip(title)
  {
    DecRoundTrip(i);
    DecRoundTrip(n);
    PrintedInPieces(title, i, n);
    BeforeSuffixOf(title + " ", Dec(i), Dec(n));
    StripDropsTrailingSpace(title);
  }

  lemma BaseTitleTrimmed(title: string)
    ensures Strip(BaseTitle(title)) == BaseTitle(title)
  {
    match BeforeSuffix(title)
    case Some(front) => StripIdempotent(front);
    case None => StripIdempotent(title);
  }
}
