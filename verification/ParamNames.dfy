/** Parameter names with an array index, `base[n]`: scanning the index and stripping it
    (proc_param_scan_offset and proc_fetch_param in
    src/runtime/proc_runtime_instructions_common.c).
 */
module ParamNames {
  import opened ProcTypes

  const OPEN: byte := 91
  const CLOSE: byte := 93
  const MINUS: byte := 45
  const PLUS: byte := 43
  const ZERO: byte := 48

  // ---------------------------------------------------------------- strtok and sscanf

  /** The first index from `i` on that holds no delimiter. */
  function SkipOpen(s: seq<byte>, i: nat): (k: nat)
    requires i <= |s|
    ensures i <= k <= |s|
    ensures k < |s| ==> s[k] != OPEN
    decreases |s| - i
  {
    if i < |s| && s[i] == OPEN then SkipOpen(s, i + 1) else i
  }

  /** The first index from `i` on that holds a delimiter. */
  function FindOpen(s: seq<byte>, i: nat): (k: nat)
    requires i <= |s|
    ensures i <= k <= |s|
    ensures forall j :: i <= j < k ==> s[j] != OPEN
    ensures k < |s| ==> s[k] == OPEN
    decreases |s| - i
  {
    if i < |s| && s[i] != OPEN then FindOpen(s, i + 1) else i
  }

  /** The second token of the name, if it has one. */
  function IndexToken(name: seq<byte>): Option<seq<byte>> {
    var tokenEnd := FindOpen(name, SkipOpen(name, 0));
    var start := SkipOpen(name, if tokenEnd < |name| then tokenEnd + 1 else tokenEnd);
    if start == |name| then None else Some(name[start..FindOpen(name, start)])
  }

  predicate IsDigit(b: byte) {
    ZERO <= b < ZERO + 10
  }

  predicate IsSpace(b: byte) {
    b == 32 || 9 <= b <= 13
  }

  function DropSpaces(s: seq<byte>): (t: seq<byte>)
    ensures |t| <= |s|
  {
    if s != [] && IsSpace(s[0]) then DropSpaces(s[1..]) else s
  }

  function LeadingDigits(s: seq<byte>): (t: seq<byte>)
    ensures t <= s && forall i :: 0 <= i < |t| ==> IsDigit(t[i])
  {
    if s != [] && IsDigit(s[0]) then [s[0]] + LeadingDigits(s[1..]) else []
  }

  function Value(digits: seq<byte>): (v: nat)
    requires forall i :: 0 <= i < |digits| ==> IsDigit(digits[i])
  {
    if digits == [] then 0
    else
      var last := digits[|digits| - 1];
      assert IsDigit(last);
      10 * Value(digits[..|digits| - 1]) + (last - ZERO)
  }

  const INT_END: int := 0x8000_0000
  const LONG_END: int := 0x8000_0000_0000_0000

  predicate FitsInt(v: int) {
    -INT_END <= v < INT_END
  }

  /** The int that a %d conversion stores. The C standard leaves open what becomes of a
      number that does not fit; here it is what glibc with a 64-bit long does, which stops
      at the ends of long and keeps the lower 32 bits. */
  function AsInt(v: int): (n: int)
    ensures FitsInt(n) && (FitsInt(v) ==> n == v)
  {
    var long := if v < -LONG_END then -LONG_END else if v >= LONG_END then LONG_END - 1 else v;
    (long + INT_END) % (2 * INT_END) - INT_END
  }

  /** The conversion by range: the number itself, its lower 32 bits, or -1. */
  lemma AsIntByRange(v: int)
    ensures -0x8000_0000 <= AsInt(v) < 0x8000_0000
    ensures -0x8000_0000 <= v < 0x8000_0000 ==> AsInt(v) == v
    ensures -0x8000_0000_0000_0000 <= v < 0x8000_0000_0000_0000 ==> (v - AsInt(v)) % 0x1_0000_0000 == 0
    ensures v >= 0x8000_0000_0000_0000 ==> AsInt(v) == -1
  {
  }

  /** The number at the start of a text, if there is one. */
  function ExactNumber(token: seq<byte>): Option<int> {
    var t := DropSpaces(token);
    var signed := t != [] && (t[0] == MINUS || t[0] == PLUS);
    var digits := LeadingDigits(if signed then t[1..] else t);
    if digits == [] then None
    else
      var v: int := Value(digits);
      Some(if signed && t[0] == MINUS then -v else v)
  }

  /** What a %d conversion reads. */
  function ScanNumber(token: seq<byte>): (r: Option<int>)
    ensures r.Some? ==> FitsInt(r.value)
  {
    match ExactNumber(token)
    case None => None
    case Some(v) => Some(AsInt(v))
  }

  function ScanOffset(name: seq<byte>): (offset: int)
    ensures FitsInt(offset)
  {
    match IndexToken(name)
    case None => -1
    case Some(token) =>
      match ScanNumber(token)
      case None => -1
      case Some(n) => n
  }

  function Digits(n: nat): (s: seq<byte>)
    ensures s != []
    ensures forall i :: 0 <= i < |s| ==> IsDigit(s[i])
  {
    if n < 10 then [ZERO + n] else Digits(n / 10) + [ZERO + n % 10]
  }

  /** What a %d conversion prints. */
  function Decimal(n: int): seq<byte> {
    if n < 0 then [MINUS] + Digits(-n) else Digits(n)
  }

  // ---------------------------------------------------------------- the cut

  /** Where the printed index and its two brackets are cut off. */
  function CutAt(name: seq<byte>): int {
    |name| - (|Decimal(ScanOffset(name))| + 2)
  }

  predicate CutsInFront(name: seq<byte>) {
    ScanOffset(name) != -1 && CutAt(name) < 0
  }

  /** The name under which the parameter is looked up: without the printed index and its
      two brackets, if an index was scanned. A cut in front of the name is written in
      front of its buffer, and the name stays. */
  function BaseName(name: seq<byte>): seq<byte> {
    if ScanOffset(name) == -1 || CutsInFront(name) then name else name[..CutAt(name)]
  }

  function Pow10(k: nat): nat {
    if k == 0 then 1 else 10 * Pow10(k - 1)
  }

  lemma {:induction false} DigitsLength(n: nat, k: nat)
    requires k > 0
    ensures |Digits(n)| <= k <==> n < Pow10(k)
    decreases k
  {
    if k > 1 && n >= 10 {
      DigitsLength(n / 10, k - 1);
    } else {
      assert Pow10(k) == 10 * Pow10(k - 1) && Pow10(k - 1) >= 1 by {
        PowersGrow(k - 1);
      }
      if k > 1 {
        PowersGrow(k - 2);
      }
    }
  }

  lemma {:induction false} PowersGrow(k: nat)
    ensures Pow10(k) >= 1
  {
    if k > 0 {
      PowersGrow(k - 1);
    }
  }

  lemma {:induction false} ValueBound(digits: seq<byte>)
    requires forall i :: 0 <= i < |digits| ==> IsDigit(digits[i])
    ensures Value(digits) < Pow10(|digits|)
  {
    if digits != [] {
      ValueBound(digits[..|digits| - 1]);
    }
  }

  /** The digits and the sign, if any, that a number in a token is read from. */
  lemma NumberInToken(token: seq<byte>) returns (digits: seq<byte>, signed: bool)
    requires ExactNumber(token).Some?
    ensures digits != [] && (forall i :: 0 <= i < |digits| ==> IsDigit(digits[i]))
    ensures |digits| + (if signed then 1 else 0) <= |token|
    ensures ExactNumber(token).value == Value(digits) || (signed && ExactNumber(token).value == 0 - Value(digits))
    ensures |digits| == |token| ==> digits == token
  {
    var t := DropSpaces(token);
    signed := t != [] && (t[0] == MINUS || t[0] == PLUS);
    digits := LeadingDigits(if signed then t[1..] else t);
  }

  lemma TokenBehindName(name: seq<byte>)
    requires IndexToken(name).Some?
    ensures |IndexToken(name).value| + 2 <= |name|
    ensures |IndexToken(name).value| + 2 == |name| ==>
              name[0] != OPEN && name[1] == OPEN && IndexToken(name).value == name[2..]
  {
    var first := SkipOpen(name, 0);
    var tokenEnd := FindOpen(name, first);
    assert first < tokenEnd < |name|;
  }

  /** A number that an int can hold is never printed longer than it was written. */
  lemma StripFits(name: seq<byte>)
    requires ScanOffset(name) != -1 && FitsInt(ExactNumber(IndexToken(name).value).value)
    ensures |Decimal(ScanOffset(name))| <= |IndexToken(name).value|
    ensures !CutsInFront(name)
  {
    var token := IndexToken(name).value;
    var v := ExactNumber(token).value;
    assert ScanOffset(name) == v;
    TokenBehindName(name);
    var digits, signed := NumberInToken(token);
    hide IndexToken, ScanOffset, ExactNumber;
    ValueBound(digits);
    DigitsLength(Value(digits), |digits|);
  }

  const BILLION: int := 1_000_000_000

  /** An int takes at most eleven characters, and eleven only if it is -10^9 or less. */
  lemma IntLength(n: int)
    requires FitsInt(n)
    ensures |Decimal(n)| <= 11 && (|Decimal(n)| == 11 <==> n <= -BILLION)
  {
    var m := if n < 0 then -n else n;
    assert Pow10(9) == BILLION && Pow10(10) == 10 * BILLION;
    DigitsLength(m, 9);
    DigitsLength(m, 10);
  }

  /** One character, a bracket, and ten digits of a number that does not fit an int and
      comes out as -10^9 or less. */
  predicate OverflowsInFront(name: seq<byte>) {
    && |name| == 12 && name[0] != OPEN && name[1] == OPEN
    && (forall i :: 0 <= i < 10 ==> IsDigit(name[2..][i]))
    && AsInt(Value(name[2..])) <= -BILLION
  }

  /** Exactly when stripping cuts in front of the name. */
  lemma CutsInFrontIff(name: seq<byte>)
    ensures CutsInFront(name) <==> OverflowsInFront(name)
  {
    if CutsInFront(name) {
      CutOverflows(name);
    }
    if OverflowsInFront(name) {
      OverflowCuts(name);
    }
  }

  lemma CutOverflows(name: seq<byte>)
    requires CutsInFront(name)
    ensures OverflowsInFront(name)
  {
    var token := IndexToken(name).value;
    if FitsInt(ExactNumber(token).value) {
      StripFits(name);
      assert false;
    } else {
      TokenBehindName(name);
      IntLength(ScanOffset(name));
      var digits, signed := NumberInToken(token);
      LongNumber(digits);
    }
  }

  lemma OverflowCuts(name: seq<byte>)
    requires OverflowsInFront(name)
    ensures CutsInFront(name)
  {
    var text := name[2..];
    assert name == [name[0]] + [OPEN] + text;
    TokenOfIndexed([name[0]], text);
    LeadingDigitsOf(text, []);
    assert text + [] == text && IsDigit(text[0]) && DropSpaces(text) == text;
    assert ScanOffset(name) == AsInt(Value(text));
    IntLength(ScanOffset(name));
  }

  /** A number beyond int takes ten digits. */
  lemma LongNumber(digits: seq<byte>)
    requires forall i :: 0 <= i < |digits| ==> IsDigit(digits[i])
    requires Value(digits) >= INT_END
    ensures |digits| >= 10
  {
    ValueBound(digits);
    if |digits| <= 9 {
      assert Pow10(9) == BILLION;
      PowersIncrease(|digits|, 9);
    }
  }

  lemma {:induction false} PowersIncrease(j: nat, k: nat)
    requires j <= k
    ensures Pow10(j) <= Pow10(k)
  {
    if j < k {
      PowersIncrease(j, k - 1);
    }
  }

  /** `a[2147483648`, which a packet may well carry, is cut in front of its buffer, and so
      is any `a[n` up to 2^32 - 10^9. */
  lemma CutInFront(name: seq<byte>, n: nat)
    requires INT_END <= n <= 2 * INT_END - BILLION
    requires |name| >= 2 && name[0] != OPEN && name[1] == OPEN && name[2..] == Digits(n)
    ensures CutsInFront(name)
  {
    hide Digits, Value, CutsInFront;
    TenDigits(n);
    ValueOfDigits(n);
    assert AsInt(n) == n - 2 * INT_END;
    CutsInFrontIff(name);
  }

  lemma TenDigits(n: nat)
    requires BILLION <= n < 10 * BILLION
    ensures |Digits(n)| == 10
  {
    assert Pow10(9) == BILLION && Pow10(10) == 10 * BILLION;
    DigitsLength(n, 9);
    DigitsLength(n, 10);
  }

  // ---------------------------------------------------------------- round trip

  lemma {:induction false} ValueOfDigits(n: nat)
    ensures Value(Digits(n)) == n
  {
    if n >= 10 {
      ValueOfDigits(n / 10);
      assert Digits(n)[..|Digits(n)| - 1] == Digits(n / 10);
    }
  }

  lemma {:induction false} LeadingDigitsOf(digits: seq<byte>, rest: seq<byte>)
    requires forall i :: 0 <= i < |digits| ==> IsDigit(digits[i])
    requires rest != [] ==> !IsDigit(rest[0])
    ensures LeadingDigits(digits + rest) == digits
  {
    if digits != [] {
      assert (digits + rest)[1..] == digits[1..] + rest;
      LeadingDigitsOf(digits[1..], rest);
    } else {
      assert digits + rest == rest;
    }
  }

  lemma {:induction false} FindOpenAt(s: seq<byte>, i: nat, k: nat)
    requires i <= k <= |s| && forall j :: i <= j < k ==> s[j] != OPEN
    requires k < |s| ==> s[k] == OPEN
    ensures FindOpen(s, i) == k
    decreases k - i
  {
    if i < k {
      FindOpenAt(s, i + 1, k);
    }
  }

  lemma PlainName(name: seq<byte>)
    requires 91 !in name
    ensures ScanOffset(name) == -1 && BaseName(name) == name
  {
    FindOpenAt(name, 0, |name|);
  }

  lemma TokenOfIndexed(base: seq<byte>, text: seq<byte>)
    requires base != [] && OPEN !in base && text != [] && OPEN !in text
    ensures IndexToken(base + [OPEN] + text) == Some(text)
  {
    var name := base + [OPEN] + text;
    assert name[0] != OPEN && name[|base| + 1] == text[0];
    FindOpenAt(name, 0, |base|);
    FindOpenAt(name, |base| + 1, |name|);
    assert name[|base| + 1..|name|] == text;
  }

  /** Whatever the brackets hold, once a number other than -1 is read from it, the base is
      recovered exactly when the text is as long as the printed number and one bracket. */
  lemma BaseRecovered(base: seq<byte>, text: seq<byte>)
    requires base != [] && OPEN !in base && text != [] && OPEN !in text
    requires ScanNumber(text).Some? && ScanNumber(text).value != -1
    ensures ScanOffset(base + [OPEN] + text) == ScanNumber(text).value
    ensures BaseName(base + [OPEN] + text) == base <==> |text| == |Decimal(ScanNumber(text).value)| + 1
  {
    var name := base + [OPEN] + text;
    TokenOfIndexed(base, text);
    assert name[..|base|] == base;
  }

  /** An index in canonical decimal and its base come back if and only if an int can hold
      the index. */
  lemma IndexRoundTrip(base: seq<byte>, n: nat)
    requires base != [] && 91 !in base
    ensures var name := base + [91] + (Decimal(n) + [93]);
            ScanOffset(name) == n && BaseName(name) == base <==> n < 0x8000_0000
  {
    var text := Decimal(n) + [CLOSE];
    assert IsDigit(text[0]) && DropSpaces(text) == text;
    LeadingDigitsOf(Digits(n), [CLOSE]);
    ValueOfDigits(n);
    assert ExactNumber(text) == Some(n);
    if FitsInt(n) {
      BaseRecovered(base, text);
    }
  }

  /** A leading zero is not canonical: `a[05]` reads index 5 and looks up `a[`. */
  lemma LeadingZeroMisleads()
    ensures ScanOffset([97, OPEN, ZERO, ZERO + 5, CLOSE]) == 5
    ensures BaseName([97, OPEN, ZERO, ZERO + 5, CLOSE]) != [97]
  {
    var digits: seq<byte> := [ZERO, ZERO + 5];
    var text := digits + [CLOSE];
    assert [97, OPEN, ZERO, ZERO + 5, CLOSE] == [97] + [OPEN] + text;
    LeadingDigitsOf(digits, [CLOSE]);
    assert digits[..1] == [ZERO] && Value([ZERO]) == 0 && Value(digits) == 5;
    assert IsDigit(text[0]) && ExactNumber(text) == Some(5);
    assert |Decimal(5)| == 1;
    BaseRecovered([97], text);
  }

  /** Numbers are written in decimal digits, the last place last. */
  lemma DecimalByPlace(n: nat, d: nat)
    requires d < 10
    ensures Decimal(d) == [48 + d]
    ensures n > 0 ==> Decimal(10 * n + d) == Decimal(n) + [48 + d]
    ensures n > 0 ==> Decimal(0 - n) == [45] + Decimal(n)
  {
    assert (10 * n + d) / 10 == n && (10 * n + d) % 10 == d;
  }

  /** A sign or a blank in front of an index is read over. The base comes back behind `-`,
      as the sign is printed too, but not behind `+` or a blank: `a[+7]` is looked up as
      `a[`. An index of -1 is none. */
  lemma SignOrBlank(base: seq<byte>, text: seq<byte>, d: nat)
    requires base != [] && 91 !in base && |text| == 3
    requires text[0] == 45 || text[0] == 43 || text[0] == 32
    requires d < 10 && text[1] == 48 + d && text[2] == 93
    ensures ScanOffset(base + [91] + text) == if text[0] == 45 then 0 - d else d
    ensures text[0] == 45 && d > 1 ==> BaseName(base + [91] + text) == base
    ensures text[0] != 45 ==> BaseName(base + [91] + text) == base + [91]
  {
    hide ExactNumber, Digits, IndexToken;
    var name := base + [91] + text;
    TokenOfIndexed(base, text);
    BehindSign(text, d);
    DecimalByPlace(1, d);
    assert name[..|base|] == base && name[..|base| + 1] == base + [91];
  }

  lemma BehindSign(text: seq<byte>, d: nat)
    requires |text| == 3 && (text[0] == 45 || text[0] == 43 || text[0] == 32)
    requires d < 10 && text[1] == 48 + d && text[2] == 93
    ensures ExactNumber(text) == Some(if text[0] == 45 then 0 - d else d)
    ensures |Decimal(d)| == 1 && (d > 0 ==> |Decimal(0 - d)| == 2)
  {
    var digits: seq<byte> := [48 + d];
    assert text[1..] == digits + [93];
    LeadingDigitsOf(digits, [93]);
    assert Value(digits) == d by {
      assert digits[..0] == [];
    }
    assert DropSpaces(text) == if text[0] == 32 then text[1..] else text by {
      assert DropSpaces(text[1..]) == text[1..];
    }
  }

  /** What starts with a letter is no index, and the name is looked up as it is. */
  lemma NoNumber(base: seq<byte>, text: seq<byte>)
    requires base != [] && 91 !in base && text != [] && 91 !in text && 97 <= text[0] <= 122
    ensures ScanOffset(base + [91] + text) == -1 && BaseName(base + [91] + text) == base + [91] + text
  {
    TokenOfIndexed(base, text);
  }

  // ---------------------------------------------------------------- in place

  /** strtok_r and sscanf on the name. */
  method ProcParamScanOffset(name: CString) returns (offset: int)
    ensures offset == ScanOffset(name)
  {
    hide SkipOpen, FindOpen, ScanNumber;
    var start := PastOpen(name, 0);
    var tokenEnd := NextOpen(name, start);
    start := PastOpen(name, if tokenEnd < |name| then tokenEnd + 1 else tokenEnd);
    if start == |name| {
      return -1;
    }
    tokenEnd := NextOpen(name, start);
    offset := -1;
    var scanned := ScanNumber(name[start..tokenEnd]);
    if scanned.Some? {
      offset := scanned.value;
    }
  }

  method PastOpen(name: CString, start: nat) returns (k: nat)
    requires start <= |name|
    ensures k == SkipOpen(name, start)
  {
    k := start;
    while k < |name| && name[k] == OPEN
      invariant start <= k <= |name| && SkipOpen(name, k) == SkipOpen(name, start)
    {
      k := k + 1;
    }
  }

  method NextOpen(name: CString, start: nat) returns (k: nat)
    requires start <= |name|
    ensures k == FindOpen(name, start)
  {
    k := start;
    while k < |name| && name[k] != OPEN
      invariant start <= k <= |name| && FindOpen(name, k) == FindOpen(name, start)
    {
      k := k + 1;
    }
  }

  method StripIndex(name: CString) returns (base: CString)
    ensures base == BaseName(name)
  {
    var offset := ProcParamScanOffset(name);
    if offset == -1 {
      return name;
    }
    base := CutCopy(name, |name| - (|Decimal(offset)| + 2));
  }

  /** Writes a terminator into a copy of the name, unless it would stand in front of it, and
      reads the copy up to the first terminator. */
  method CutCopy(name: CString, cut: int) returns (text: CString)
    requires cut <= |name|
    ensures text == if cut < 0 then name else name[..cut]
  {
    var copy := new byte[|name| + 1](i requires 0 <= i <= |name| => if i < |name| then name[i] else 0);
    if cut >= 0 {
      copy[cut] := 0;
    }
    ghost var length := if cut < 0 then |name| else cut;
    assert copy[length] == 0 && forall k :: 0 <= k < length ==> copy[k] == name[k];
    var n := 0;
    while copy[n] != 0
      invariant 0 <= n <= length
      decreases length - n
    {
      n := n + 1;
    }
    assert copy[..n] == name[..n];
    text := copy[..n];
  }
}
