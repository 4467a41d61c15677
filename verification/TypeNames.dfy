/** The names of arrays and pointers, how they are written and how they are read back. */
module TypeNames {
  import opened Options

  /** A type that is built from a named one, from the outside in. */
  datatype Derived = Base(name: string) | PointerTo(of: Derived) | ArrayOf(of: Derived, dimension: int)

  /** What is put on top of a type. */
  datatype Modifier = Pointer | Array(dimension: int)

  datatype Parsed = Parsed(base: string, modifiers: seq<Modifier>)

  function Wrap(d: Derived, m: Modifier): Derived {
    if m.Pointer? then PointerTo(d) else ArrayOf(d, m.dimension)
  }

  /** The modifiers in order, the first one innermost. */
  function Apply(d: Derived, ms: seq<Modifier>): Derived
    decreases |ms|
  {
    if ms == [] then d else Apply(Wrap(d, ms[0]), ms[1..])
  }

  // ----- numbers -----

  function Digit(d: nat): char
    requires d < 10
  {
    ('0' as int + d) as char
  }

  predicate IsDigit(c: char) {
    '0' <= c <= '9'
  }

  function Digits(n: nat): string {
    if n < 10 then [Digit(n)] else Digits(n / 10) + [Digit(n % 10)]
  }

  function ReadDigits(acc: nat, s: string): nat
    decreases |s|
  {
    if s == [] || !IsDigit(s[0]) then acc else ReadDigits(10 * acc + (s[0] as int - '0' as int), s[1..])
  }

  predicate IsSpace(c: char) {
    c == ' ' || '\t' <= c <= '\r'
  }

  /** `atoi`: white space, a sign, and as many digits as there are. */
  function Atoi(s: string): int
    decreases |s|
  {
    if s == [] then 0
    else if IsSpace(s[0]) then Atoi(s[1..])
    else if s[0] == '-' then 0 - ReadDigits(0, s[1..])
    else if s[0] == '+' then ReadDigits(0, s[1..])
    else ReadDigits(0, s)
  }

  lemma {:induction false} DigitsAreDigits(n: nat)
    ensures |Digits(n)| > 0 && forall i :: 0 <= i < |Digits(n)| ==> IsDigit(Digits(n)[i])
  {
    if n >= 10 {
      DigitsAreDigits(n / 10);
    }
  }

  lemma {:induction false} ReadsBack(n: nat, t: string)
    ensures ReadDigits(0, Digits(n) + t) == ReadDigits(n, t)
    decreases n
  {
    if n < 10 {
      assert ([Digit(n)] + t)[1..] == t;
    } else {
      var d := [Digit(n % 10)];
      assert Digits(n) + t == Digits(n / 10) + (d + t);
      ReadsBack(n / 10, d + t);
      assert (d + t)[1..] == t;
    }
  }

  lemma AtoiReadsBack(n: nat, t: string)
    requires t == [] || !IsDigit(t[0])
    ensures Atoi(Digits(n) + t) == n
  {
    DigitsAreDigits(n);
    assert IsDigit(Digits(n)[0]) && (Digits(n) + t)[0] == Digits(n)[0];
    ReadsBack(n, t);
  }

  // ----- writing -----

  const INT_LIMIT := 0x8000_0000

  /** Every dimension is a non-negative `int`. */
  predicate Printable(d: Derived) {
    match d
    case Base(_) => true
    case PointerTo(of) => Printable(of)
    case ArrayOf(of, n) => 0 <= n < INT_LIMIT && Printable(of)
  }

  function Brackets(n: nat): string {
    "[" + Digits(n) + "]"
  }

  function Print(d: Derived): string
    requires Printable(d)
  {
    match d
    case Base(name) => name
    case PointerTo(of) => Print(of) + "*"
    case ArrayOf(of, n) => Print(of) + Brackets(n)
  }

  /** Twenty arrays of ten pointers. */
  lemma WrittenOut()
    ensures Print(ArrayOf(ArrayOf(PointerTo(Base("/int")), 10), 20)) == "/int*[10][20]"
  {
    assert Digits(1) == "1" && Digits(2) == "2";
    assert Digits(10) == "10" && Digits(20) == "20";
  }

  // ----- reading -----

  /** The last place up to `end` where `c` stands, or -1. */
  function LastOf(s: string, c: char, end: int): (at: int)
    requires -1 <= end < |s|
    ensures -1 <= at <= end && (at >= 0 ==> s[at] == c) && forall i :: at < i <= end ==> s[i] != c
    decreases end + 1
  {
    if end < 0 then -1 else if s[end] == c then end else LastOf(s, c, end - 1)
  }

  function Wrapped(r: Option<Derived>, m: Modifier): Option<Derived> {
    if r.None? then None else Some(Wrap(r.value, m))
  }

  function Applied(r: Option<Derived>, ms: seq<Modifier>): Option<Derived> {
    if r.None? then None else Some(Apply(r.value, ms))
  }

  /** What the name up to `end` says. */
  function Read(s: string, end: int): Option<Derived>
    requires -1 <= end < |s|
    decreases end + 1
  {
    if end <= 0 then None
    else if s[end] == ']' then
      var start := LastOf(s, '[', end);
      if start < 0 then None else Wrapped(Read(s, start - 1), Array(Atoi(s[start + 1..])))
    else if s[end] == '*' then Wrapped(Read(s, end - 1), Pointer)
    else if s[end] == ' ' then Read(s, end - 1)
    else Some(Base(s[..end + 1]))
  }

  function Parse(fullName: string): Option<Derived> {
    Read(fullName, |fullName| - 1)
  }

  lemma AppliedFirst(r: Option<Derived>, m: Modifier, ms: seq<Modifier>)
    ensures Applied(Wrapped(r, m), ms) == Applied(r, [m] + ms)
  {
    assert ([m] + ms)[1..] == ms;
  }

  /** `parseTypename`, which reads from the back. */
  method ParseTypename(fullName: string) returns (r: Option<Parsed>)
    ensures Parse(fullName) == if r.None? then None else Some(Apply(Base(r.value.base), r.value.modifiers))
  {
    var modifiers: seq<Modifier> := [];
    var end := |fullName| - 1;
    while end > 0
      invariant -1 <= end < |fullName|
      invariant Applied(Read(fullName, end), modifiers) == Parse(fullName)
    {
      if fullName[end] == ']' {
        var start := LastOf(fullName, '[', end);
        if start < 0 {
          return None;
        }
        var m := Array(Atoi(fullName[start + 1..]));
        AppliedFirst(Read(fullName, start - 1), m, modifiers);
        modifiers := [m] + modifiers;
        end := start - 1;
      } else if fullName[end] == '*' {
        AppliedFirst(Read(fullName, end - 1), Pointer, modifiers);
        modifiers := [Pointer] + modifiers;
        end := end - 1;
      } else if fullName[end] == ' ' {
        end := end - 1;
      } else {
        return Some(Parsed(fullName[..end + 1], modifiers));
      }
    }
    return None;
  }

  // ----- what was written is read back -----

  function Root(d: Derived): string {
    match d
    case Base(name) => name
    case PointerTo(of) => Root(of)
    case ArrayOf(of, _) => Root(of)
  }

  /** A name that is itself neither an array nor a pointer. */
  predicate Canonical(base: string) {
    |base| >= 2 && base[|base| - 1] != ']' && base[|base| - 1] != '*' && base[|base| - 1] != ' '
  }

  predicate Holds(s: string, k: nat, part: string) {
    k + |part| <= |s| && s[k..k + |part|] == part
  }

  lemma ReadsArray(s: string, k: nat, end: nat, of: Derived, n: nat)
    requires k > 0 && Holds(s, k, Brackets(n)) && end == k + |Brackets(n)| - 1 && Read(s, k - 1) == Some(of)
    ensures Read(s, end) == Some(ArrayOf(of, n))
  {
    var part, digits := Brackets(n), Digits(n);
    DigitsAreDigits(n);
    forall i | k <= i <= end ensures s[i] == part[i - k] {
      assert s[i] == s[k..k + |part|][i - k];
    }
    forall i | k < i <= end ensures s[i] != '[' {
      assert i < end ==> part[i - k] == digits[i - k - 1];
    }
    assert s[k] == part[0] == '[';
    assert LastOf(s, '[', end) == k;
    assert s[k + 1..] == digits + s[end..];
    AtoiReadsBack(n, s[end..]);
  }

  lemma HoldsParts(s: string, a: string, b: string)
    requires Holds(s, 0, a + b)
    ensures Holds(s, 0, a) && Holds(s, |a|, b)
  {
    assert s[..|a|] == s[..|a| + |b|][..|a|] == a;
    assert s[|a|..|a| + |b|] == s[..|a| + |b|][|a|..] == b;
  }

  lemma ReadsPointer(s: string, k: nat, of: Derived)
    requires k > 0 && Holds(s, k, "*") && Read(s, k - 1) == Some(of)
    ensures Read(s, k) == Some(PointerTo(of))
  {
    assert s[k] == s[k..k + 1][0] == '*';
  }

  lemma ReadsBase(s: string, name: string)
    requires Canonical(name) && Holds(s, 0, name)
    ensures Read(s, |name| - 1) == Some(Base(name))
  {
    assert s[|name| - 1] == s[..|name|][|name| - 1];
  }

  lemma {:induction false} ReadsPrinted(s: string, d: Derived, end: int)
    requires Printable(d) && Canonical(Root(d)) && Holds(s, 0, Print(d)) && end == |Print(d)| - 1
    ensures end >= 0 && Read(s, end) == Some(d)
    decreases d
  {
    match d
    case Base(name) =>
      ReadsBase(s, name);
    case PointerTo(of) =>
      HoldsParts(s, Print(of), "*");
      ReadsPrinted(s, of, end - 1);
      ReadsPointer(s, end, of);
    case ArrayOf(of, n) =>
      var k := |Print(of)|;
      HoldsParts(s, Print(of), Brackets(n));
      ReadsPrinted(s, of, k - 1);
      ReadsArray(s, k, end, of, n);
  }

  lemma {:induction false} ReadIsCanonical(s: string, end: int)
    requires -1 <= end < |s|
    ensures Read(s, end).Some? ==> Canonical(Root(Read(s, end).value))
    decreases end + 1
  {
    if end > 0 {
      if s[end] == ']' {
        var start := LastOf(s, '[', end);
        if start >= 0 {
          ReadIsCanonical(s, start - 1);
        }
      } else if s[end] == '*' || s[end] == ' ' {
        ReadIsCanonical(s, end - 1);
      }
    }
  }

  /** Reading a written name gives back the type exactly when its base is not itself such a name. */
  lemma RoundTrip(d: Derived)
    requires Printable(d)
    ensures Parse(Print(d)) == Some(d) <==> Canonical(Root(d))
  {
    var name := Print(d);
    ReadIsCanonical(name, |name| - 1);
    if Canonical(Root(d)) {
      assert name[0..|name|] == name;
      ReadsPrinted(name, d, |name| - 1);
    }
  }

  /** Whatever is read from a name, its written form reads the same. */
  lemma ReprintsSame(s: string)
    requires Parse(s).Some? && Printable(Parse(s).value)
    ensures Parse(Print(Parse(s).value)) == Parse(s)
  {
    ReadIsCanonical(s, |s| - 1);
    RoundTrip(Parse(s).value);
  }
}
