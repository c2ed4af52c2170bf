/** The allocator of device names such as eth%d: find the lowest free unit by scanning the
    names in use back into numbers. */
module DevNames {
  import opened Errno
  import opened Lists

  const IFNAMSIZ := 16
  const MAX_NETDEVICES := 32768   // 8 * PAGE_SIZE, with pages of 4096 bytes

  // -------------------------------- decimal numbers ----------------------------------

  predicate IsDigit(c: char) {
    '0' <= c <= '9'
  }

  ghost predicate AllDigits(s: string) {
    forall i :: 0 <= i < |s| ==> IsDigit(s[i])
  }

  function Decimal(n: nat): (s: string)
    ensures |s| >= 1 && AllDigits(s)
  {
    var d := '0' + (n % 10) as char;
    if n < 10 then [d] else Decimal(n / 10) + [d]
  }

  function Value(s: string): nat
    requires AllDigits(s)
  {
    if s == [] then 0 else Value(s[..|s| - 1]) * 10 + (s[|s| - 1] - '0') as nat
  }

  /** How many digits `s` starts with. */
  function DigitRun(s: string): (n: nat)
    ensures n <= |s| && AllDigits(s[..n])
    ensures n < |s| ==> !IsDigit(s[n])
  {
    if s == [] || !IsDigit(s[0]) then 0
    else
      var n := DigitRun(s[1..]) + 1;
      assert s[..n] == [s[0]] + s[1..][..n - 1];
      n
  }

  /** Truncation of a scanned number to a 32-bit int. */
  function ToInt32(n: int): (r: int)
    ensures -0x8000_0000 <= r < 0x8000_0000
  {
    (n + 0x8000_0000) % 0x1_0000_0000 - 0x8000_0000
  }

  lemma {:induction false} ValueOfDecimal(n: nat)
    ensures Value(Decimal(n)) == n
  {
    if n >= 10 {
      ValueOfDecimal(n / 10);
      assert Decimal(n)[..|Decimal(n)| - 1] == Decimal(n / 10);
    }
  }

  lemma DecimalIsInjective(m: nat, n: nat)
    requires Decimal(m) == Decimal(n)
    ensures m == n
  {
    ValueOfDecimal(m);
    ValueOfDecimal(n);
  }

  lemma {:induction false} DecimalLength(n: nat)
    ensures n < 10 ==> |Decimal(n)| == 1
    ensures n < 100_000 ==> |Decimal(n)| <= 5
  {
    assert n >= 10 ==> |Decimal(n)| == |Decimal(n / 10)| + 1;
    assert n >= 100 ==> |Decimal(n / 10)| == |Decimal(n / 10 / 10)| + 1;
    assert n >= 1000 ==> |Decimal(n / 10 / 10)| == |Decimal(n / 10 / 10 / 10)| + 1;
    assert n >= 10000 ==> |Decimal(n / 10 / 10 / 10)| == |Decimal(n / 10 / 10 / 10 / 10)| + 1;
  }

  // ------------------------------ printing and scanning ------------------------------

  // a format is "prefix%dsuffix"
  datatype Format = Format(prefix: string, suffix: string)

  /** snprintf into a buffer of IFNAMSIZ. */
  function Clip(s: string): string {
    if |s| >= IFNAMSIZ then s[..IFNAMSIZ - 1] else s
  }

  function Full(f: Format, unit: nat): string {
    f.prefix + Decimal(unit) + f.suffix
  }

  function Print(f: Format, unit: nat): string {
    Clip(Full(f, unit))
  }

  predicate IsSpace(c: char) {
    c == ' ' || c == '\t' || c == '\n' || c == '\r' || c == (11 as char) || c == (12 as char)
  }

  function SkipSpace(s: string): string {
    if s != [] && IsSpace(s[0]) then SkipSpace(s[1..]) else s
  }

  /** sscanf of the format: the prefix literally, then the number.  Whatever follows the
      digits does not matter to its answer. */
  function Scan(f: Format, name: string): Option<int> {
    if f.prefix <= name then ScanNumber(name[|f.prefix|..]) else None
  }

  /** %d: white space, a sign and digits. */
  function ScanNumber(s: string): Option<int> {
    var rest := SkipSpace(s);
    var negative := rest != [] && rest[0] == '-';
    var number := if negative then rest[1..] else rest;
    var n := DigitRun(number);
    if n == 0 then None
    else Some(ToInt32(if negative then 0 - Value(number[..n]) else Value(number[..n])))
  }

  predicate StartsWithDigit(s: string) {
    s != [] && IsDigit(s[0])
  }

  /** Names of all units up to the limit fit the buffer. */
  predicate Fits(f: Format) {
    |f.prefix| + 5 + |f.suffix| < IFNAMSIZ
  }

  lemma PrintFits(f: Format, unit: nat)
    requires Fits(f) && unit <= MAX_NETDEVICES
    ensures Print(f, unit) == Full(f, unit)
  {
    DecimalLength(unit);
  }

  lemma FullIsInjective(f: Format, m: nat, n: nat)
    requires Full(f, m) == Full(f, n)
    ensures m == n
  {
    var p := |f.prefix|;
    assert |Decimal(m)| == |Decimal(n)|;
    assert Decimal(m) == Full(f, m)[p..p + |Decimal(m)|];
    assert Decimal(n) == Full(f, n)[p..p + |Decimal(n)|];
    DecimalIsInjective(m, n);
  }

  lemma {:induction false} RunOfDigits(s: string, t: string)
    requires AllDigits(s)
    ensures DigitRun(s + t) == |s| + DigitRun(t)
  {
    if s == [] {
      assert s + t == t;
    } else {
      assert (s + t)[1..] == s[1..] + t;
      RunOfDigits(s[1..], t);
    }
  }

  /** What scanning a printed name reads: the unit's digits and any the suffix starts with. */
  lemma ScanOfPrint(f: Format, unit: nat)
    ensures var r := DigitRun(f.suffix);
      Scan(f, Full(f, unit)) == Some(ToInt32(Value(Decimal(unit) + f.suffix[..r])))
  {
    assert f.prefix <= Full(f, unit) && Full(f, unit)[|f.prefix|..] == Decimal(unit) + f.suffix;
    ScanDigits(Decimal(unit), f.suffix);
  }

  lemma ScanDigits(s: string, t: string)
    requires s != [] && AllDigits(s)
    ensures ScanNumber(s + t) == Some(ToInt32(Value(s + t[..DigitRun(t)])))
  {
    var rest := s + t;
    assert IsDigit(rest[0]) && SkipSpace(rest) == rest && rest[0] != '-';
    RunOfDigits(s, t);
    assert rest[..|s| + DigitRun(t)] == s + t[..DigitRun(t)];
    hide Value, ToInt32, DigitRun;
  }

  /** Scanning undoes printing, provided the digits of the number end where the suffix
      begins. */
  lemma ScanUndoesPrint(f: Format, unit: nat)
    requires Fits(f) && !StartsWithDigit(f.suffix) && unit <= MAX_NETDEVICES
    ensures Scan(f, Print(f, unit)) == Some(unit)
  {
    PrintFits(f, unit);
    ScanOfPrint(f, unit);
    assert Decimal(unit) + f.suffix[..0] == Decimal(unit);
    ValueOfDecimal(unit);
  }

  // ----------------------------------- allocation ------------------------------------

  /** The name `d` marks `unit` as in use. */
  predicate Marks(f: Format, d: string, unit: int) {
    0 <= unit < MAX_NETDEVICES && Scan(f, d) == Some(unit) && Print(f, unit) == d
  }

  ghost predicate Marked(f: Format, names: seq<string>, unit: int) {
    exists i :: 0 <= i < |names| && Marks(f, names[i], unit)
  }

  /** The unit that the search through the marks settles on. */
  ghost predicate Chosen(f: Format, names: seq<string>, unit: int) {
    && 0 <= unit <= MAX_NETDEVICES
    && (forall u :: 0 <= u < unit ==> Marked(f, names, u))
    && !Marked(f, names, unit)
  }

  /** What one name in use does to the marks. */
  method MarkName(f: Format, d: string, inuse: array<bool>)
    requires inuse.Length == MAX_NETDEVICES
    modifies inuse
    ensures forall u :: 0 <= u < MAX_NETDEVICES ==> inuse[u] == (old(inuse[u]) || Marks(f, d, u))
  {
    var scanned := Scan(f, d);
    if scanned.Some? && 0 <= scanned.value < MAX_NETDEVICES {
      if Print(f, scanned.value) == d {
        inuse[scanned.value] := true;
      }
    }
  }

  /** __dev_alloc_name for a format with a unit, given a page for the marks. */
  method AllocUnit(f: Format, names: seq<string>) returns (ret: int, buf: string, ghost chosen: nat)
    ensures Chosen(f, names, chosen) && buf == Print(f, chosen)
    ensures ret == if buf in names then -ENFILE else chosen
  {
    hide Marks, Print, Marked;
    var inuse := new bool[MAX_NETDEVICES](_ => false);
    MarkedNone(f);
    var k := 0;
    while k < |names|
      invariant 0 <= k <= |names|
      invariant forall u :: 0 <= u < MAX_NETDEVICES ==> inuse[u] == Marked(f, names[..k], u)
    {
      assert names[..k + 1] == names[..k] + [names[k]];
      MarkedSnoc(f, names[..k], names[k]);
      MarkName(f, names[k], inuse);
      k := k + 1;
    }
    assert names[..|names|] == names;
    var i := 0;
    while i < MAX_NETDEVICES && inuse[i]
      invariant 0 <= i <= MAX_NETDEVICES
      invariant forall u :: 0 <= u < i ==> Marked(f, names, u)
    {
      i := i + 1;
    }
    MarkedBelowLimit(f, names);
    chosen, buf := i, Print(f, i);
    ret := if buf in names then -ENFILE else i;
  }

  lemma MarkedNone(f: Format)
    ensures forall u :: !Marked(f, [], u)
  {
  }

  lemma MarkedBelowLimit(f: Format, names: seq<string>)
    ensures !Marked(f, names, MAX_NETDEVICES)
  {
  }

  lemma MarkedSnoc(f: Format, names: seq<string>, d: string)
    ensures forall unit :: Marked(f, names + [d], unit) <==> Marked(f, names, unit) || Marks(f, d, unit)
  {
    forall unit ensures Marked(f, names + [d], unit) <==> Marked(f, names, unit) || Marks(f, d, unit) {
      var all := names + [d];
      if Marked(f, names, unit) {
        var i :| 0 <= i < |names| && Marks(f, names[i], unit);
        assert all[i] == names[i];
      }
      if Marks(f, d, unit) {
        assert all[|names|] == d;
      }
    }
  }

  /** The checks refuse the name: a '%' among its first IFNAMSIZ - 1 characters is not followed by
      a 'd', or another '%' comes after those two. */
  ghost predicate Refused(name: string) {
    exists i :: 0 <= i < |name| && i < IFNAMSIZ - 1 && name[i] == '%' &&
      (i + 1 == |name| || name[i + 1] != 'd' || exists j :: i + 2 <= j < |name| && name[j] == '%')
  }

  /** There is no '%' where the allocator looks for one. */
  ghost predicate Plain(name: string) {
    forall i :: 0 <= i < |name| && i < IFNAMSIZ - 1 ==> name[i] != '%'
  }

  /** What the allocator may answer, and leave in the buffer, for a name or a format. */
  ghost predicate Allocates(names: seq<string>, name: string, page: bool, ret: int, buf: string) {
    if Refused(name) then ret == -EINVAL
    else if Plain(name) then buf == Clip(name) && ret == if buf in names then -ENFILE else 0
    else if !page then ret == -ENOMEM
    else exists f, u: nat :: IsFormat(f, name) && Chosen(f, names, u) && buf == Print(f, u) &&
                             ret == if buf in names then -ENFILE else u
  }

  ghost predicate IsFormat(f: Format, name: string) {
    name == f.prefix + "%d" + f.suffix && '%' !in f.prefix && '%' !in f.suffix
  }

  lemma AllocatedIsNew(names: seq<string>, name: string, page: bool, ret: int, buf: string)
    requires Allocates(names, name, page, ret, buf) && ret >= 0
    ensures buf !in names
  {
  }

  /** __dev_alloc_name on any string. */
  method AllocName(names: seq<string>, name: string, page: bool) returns (ret: int, buf: string)
    ensures Allocates(names, name, page, ret, buf)
  {
    hide Chosen, Print;
    buf := "";
    ParseTells(name);
    match ParseFormat(name) {
      case Malformed => ret := -EINVAL;
      case Fixed =>
        buf := Clip(name);
        ret := if buf in names then -ENFILE else 0;
      case Pattern(f) =>
        if !page {
          return -ENOMEM, buf;
        }
        ghost var u;
        ret, buf, u := AllocUnit(f, names);
        assert IsFormat(f, name);
    }
  }

  datatype Parsed = Malformed | Fixed | Pattern(f: Format)

  /** The checks on the string: a '%' among its first IFNAMSIZ - 1 characters must start the
      only conversion, a plain %d. */
  function ParseFormat(name: string): Parsed {
    var p := FirstPercent(name, 0);
    if p >= IFNAMSIZ - 1 || p == |name| then Fixed
    else if p + 1 < |name| && name[p + 1] == 'd' && FirstPercent(name, p + 2) == |name| then
      Pattern(Format(name[..p], name[p + 2..]))
    else Malformed
  }

  function FirstPercent(s: string, i: nat): (p: nat)
    requires i <= |s|
    ensures i <= p <= |s| && (p < |s| ==> s[p] == '%')
    ensures forall j :: i <= j < p ==> s[j] != '%'
    decreases |s| - i
  {
    if i == |s| || s[i] == '%' then i else FirstPercent(s, i + 1)
  }

  /** The three answers of the checks, and when each is given. */
  lemma ParseTells(name: string)
    ensures match ParseFormat(name)
      case Malformed => Refused(name)
      case Fixed => !Refused(name) && Plain(name)
      case Pattern(f) => !Refused(name) && !Plain(name) && IsFormat(f, name)
  {
    var p := FirstPercent(name, 0);
    if p < |name| && p < IFNAMSIZ - 1 {
      assert name[p] == '%';
      if p + 1 < |name| && name[p + 1] == 'd' {
        var q := FirstPercent(name, p + 2);
        if q == |name| {
          assert name == name[..p] + "%d" + name[p + 2..];
        } else {
          assert name[q] == '%';
        }
      }
    }
  }

  // ----------------------------------- main results ----------------------------------

  lemma MarkedIsTaken(f: Format, names: seq<string>, unit: int)
    requires Marked(f, names, unit)
    ensures unit >= 0 && Print(f, unit) in names
  {
    var i :| 0 <= i < |names| && Marks(f, names[i], unit);
  }

  /** A unit that the allocator returns is the least of all units whose printed name is
      free, for any format and any names: no other name ever marks a wrong unit. */
  lemma ReturnedUnitIsLeastFree(f: Format, names: seq<string>, unit: nat)
    requires Chosen(f, names, unit) && Print(f, unit) !in names
    ensures forall u: nat :: u < unit ==> Print(f, u) in names
  {
    forall u: nat | u < unit ensures Print(f, u) in names {
      MarkedIsTaken(f, names, u);
    }
  }

  lemma SameFormat(f: Format, g: Format)
    requires f.prefix + "%d" + f.suffix == g.prefix + "%d" + g.suffix
    requires '%' !in f.prefix && '%' !in g.prefix
    ensures f == g
  {
    var s, t := f.prefix + "%d" + f.suffix, g.prefix + "%d" + g.suffix;
    assert s[|f.prefix|] == '%' && t[|g.prefix|] == '%';
    assert forall i :: 0 <= i < |f.prefix| ==> s[i] == f.prefix[i];
    assert forall i :: 0 <= i < |g.prefix| ==> t[i] == g.prefix[i];
    assert |f.prefix| == |g.prefix|;
    var n := |f.prefix|;
    assert s[..n] == f.prefix && t[..n] == g.prefix && s[n + 2..] == f.suffix && t[n + 2..] == g.suffix;
  }

  /** So for a string with a single %d where the allocator looks for it, the answer is the least
      unit whose name is free, with that name in the buffer, or -ENFILE; given that the names fit
      and no digit follows the number, -ENFILE exactly if every unit is taken. */
  lemma PatternGetsLeastFree(names: seq<string>, prefix: string, suffix: string, ret: int, buf: string)
    requires '%' !in prefix && '%' !in suffix && |prefix| < IFNAMSIZ - 1
    requires Allocates(names, prefix + "%d" + suffix, true, ret, buf)
    ensures var f := Format(prefix, suffix);
      && (ret != -ENFILE ==>
            && ret >= 0 && buf == Print(f, ret) && buf !in names
            && buf <= prefix + Decimal(ret) + suffix && |buf| < IFNAMSIZ
            && forall u: nat :: u < ret ==> Print(f, u) in names)
      && (Fits(f) && !StartsWithDigit(suffix) ==>
            (ret == -ENFILE <==> forall u: nat :: u <= MAX_NETDEVICES ==> Print(f, u) in names))
  {
    hide Chosen, Fits;
    var f, name := Format(prefix, suffix), prefix + "%d" + suffix;
    OneConversion(prefix, suffix);
    var g, u: nat :| IsFormat(g, name) && Chosen(g, names, u) && buf == Print(g, u) &&
                     ret == if buf in names then -ENFILE else u;
    SameFormat(f, g);
    if ret != -ENFILE {
      ReturnedUnitIsLeastFree(f, names, u);
    }
    if Fits(f) && !StartsWithDigit(suffix) {
      FailsOnlyWhenFull(f, names, u);
    }
  }

  lemma OneConversion(prefix: string, suffix: string)
    requires '%' !in prefix && '%' !in suffix && |prefix| < IFNAMSIZ - 1
    ensures var name := prefix + "%d" + suffix; !Refused(name) && !Plain(name)
  {
    var name, n := prefix + "%d" + suffix, |prefix|;
    assert name[n] == '%' && name[n + 1] == 'd';
    assert forall i :: 0 <= i < n ==> name[i] == prefix[i];
    assert forall i :: n + 2 <= i < |name| ==> name[i] == suffix[i - n - 2];
  }

  /** And -EINVAL exactly if the string is refused, -ENOMEM exactly if it is a pattern and there is
      no page for the marks. */
  lemma RefusalIsExact(names: seq<string>, name: string, page: bool, ret: int, buf: string)
    requires Allocates(names, name, page, ret, buf)
    ensures ret == -EINVAL <==> Refused(name)
    ensures ret == -ENOMEM <==> !Refused(name) && !Plain(name) && !page
    ensures Plain(name) ==>
      && buf <= name && |buf| == (if |name| < IFNAMSIZ then |name| else IFNAMSIZ - 1)
      && ret == if buf in names then -ENFILE else 0
  {
    hide Chosen, Print;
  }

  lemma TakenIsMarked(f: Format, names: seq<string>, unit: nat)
    requires Fits(f) && !StartsWithDigit(f.suffix) && unit < MAX_NETDEVICES && Print(f, unit) in names
    ensures Marked(f, names, unit)
  {
    var i :| 0 <= i < |names| && names[i] == Print(f, unit);
    ScanUndoesPrint(f, unit);
    assert Marks(f, names[i], unit);
  }

  /** For a format whose names fit and whose suffix does not start with a digit, the
      allocator fails exactly when every unit up to and including the limit is taken. */
  lemma FailsOnlyWhenFull(f: Format, names: seq<string>, unit: nat)
    requires Fits(f) && !StartsWithDigit(f.suffix) && Chosen(f, names, unit)
    ensures Print(f, unit) in names <==> forall u: nat :: u <= MAX_NETDEVICES ==> Print(f, u) in names
  {
    if unit < MAX_NETDEVICES && Print(f, unit) in names {
      TakenIsMarked(f, names, unit);
    }
    forall u: nat | u < unit ensures Print(f, u) in names {
      MarkedIsTaken(f, names, u);
    }
  }

  // ------------------------ suffixes that start with a digit -------------------------

  lemma {:induction false} ValueOfDigits(d: char, r: string)
    requires IsDigit(d) && AllDigits(r)
    ensures Value([d] + r) == (d - '0') as nat * Power10(|r|) + Value(r)
  {
    if r == [] {
      assert [d] + r == [d] && [d][..0] == [];
    } else {
      var n, m := |r| - 1, (d - '0') as nat;
      ValueOfDigits(d, r[..n]);
      assert ([d] + r)[..n + 1] == [d] + r[..n] && ([d] + r)[n + 1] == r[n];
      Shift10(m, Power10(n), Value(r[..n]));
    }
  }

  lemma Shift10(m: nat, p: nat, v: nat)
    ensures (m * p + v) * 10 == m * (10 * p) + v * 10
  {
  }

  function Power10(k: nat): (n: nat)
    ensures k > 0 ==> n % 2 == 0
  {
    if k == 0 then 1 else 10 * Power10(k - 1)
  }

  /** Behind a suffix that starts with a digit, unit 1 or unit 2 does not scan back. */
  lemma SomeUnitIsMisread(f: Format) returns (u: nat)
    requires StartsWithDigit(f.suffix)
    ensures 1 <= u <= 2 && Scan(f, Full(f, u)) != Some(u)
  {
    hide Scan, Full, Value, ToInt32;
    var r := f.suffix[..DigitRun(f.suffix)];
    ScanOfPrint(f, 1);
    ScanOfPrint(f, 2);
    assert Decimal(1) == ['1'] && Decimal(2) == ['2'];
    hide Decimal, DigitRun;
    OneAndTwo(r);
    EvenApart(Value(['1'] + r), Value(['2'] + r));
    u := if ToInt32(Value(['1'] + r)) != 1 then 1 else 2;
  }

  lemma OneAndTwo(r: string)
    requires r != [] && AllDigits(r)
    ensures (Value(['2'] + r) - Value(['1'] + r)) % 2 == 0
  {
    hide Value;
    ValueOfDigits('1', r);
    ValueOfDigits('2', r);
    Multiples(('1' - '0') as nat, ('2' - '0') as nat, Power10(|r|));
  }

  lemma Multiples(a: nat, b: nat, p: nat)
    requires a == 1 && b == 2
    ensures a * p == p && b * p == p + p
  {
  }

  lemma EvenApart(v: int, w: int)
    requires (w - v) % 2 == 0
    ensures (ToInt32(w) - ToInt32(v)) % 2 == 0
  {
    var a, b := (v + 0x8000_0000) / 0x1_0000_0000, (w + 0x8000_0000) / 0x1_0000_0000;
    assert ToInt32(v) == v - 0x1_0000_0000 * a && ToInt32(w) == w - 0x1_0000_0000 * b;
  }

  /** Then three devices are enough to make the allocator fail with units to spare. */
  lemma FailsWithRoomToSpare(f: Format) returns (names: seq<string>)
    requires Fits(f) && StartsWithDigit(f.suffix)
    ensures |names| == 3 && Print(f, 3) !in names
    ensures forall unit :: Chosen(f, names, unit) ==> Print(f, unit) in names
  {
    names := [Print(f, 0), Print(f, 1), Print(f, 2)];
    PrintFits(f, 0);
    PrintFits(f, 1);
    PrintFits(f, 2);
    PrintFits(f, 3);
    var m := SomeUnitIsMisread(f);
    if Print(f, 3) in names {
      var i :| 0 <= i < 3 && names[i] == Full(f, 3);
      FullIsInjective(f, i, 3);
    }
    assert !Marked(f, names, m);
    forall unit | Chosen(f, names, unit) ensures Print(f, unit) in names {
      assert unit <= m;
      assert names[unit] == Print(f, unit);
    }
  }

  /** So, among formats whose names fit, those for which failure always means that all
      units are taken are exactly those whose suffix does not start with a digit. */
  lemma FailureIsHonestIff(f: Format)
    requires Fits(f)
    ensures !StartsWithDigit(f.suffix) <==>
      (forall names, unit: nat :: Chosen(f, names, unit) && Print(f, unit) in names ==>
         forall u: nat :: u <= MAX_NETDEVICES ==> Print(f, u) in names)
  {
    if StartsWithDigit(f.suffix) {
      var names := FailsWithRoomToSpare(f);
      var unit := ChosenExists(f, names, 0);
    } else {
      forall names, unit: nat | Chosen(f, names, unit) && Print(f, unit) in names
        ensures forall u: nat :: u <= MAX_NETDEVICES ==> Print(f, u) in names
      {
        FailsOnlyWhenFull(f, names, unit);
      }
    }
  }

  /** The allocator always settles on some unit. */
  lemma {:induction false} ChosenExists(f: Format, names: seq<string>, i: nat) returns (unit: nat)
    requires i <= MAX_NETDEVICES && forall u :: 0 <= u < i ==> Marked(f, names, u)
    ensures Chosen(f, names, unit)
    decreases MAX_NETDEVICES - i
  {
    if i == MAX_NETDEVICES || !Marked(f, names, i) {
      unit := i;
    } else {
      unit := ChosenExists(f, names, i + 1);
    }
  }
}
