/** Derivation paths of accounts/hd.go: printing and parsing of BIP-32 paths. */
module DerivationPaths {
  const HARDENED: nat := 0x8000_0000
  const MAX_UINT32: nat := 0xFFFF_FFFF

  type Uint32 = n: nat | n <= MAX_UINT32

  type Path = seq<Uint32>

  const DEFAULT_ROOT: Path := [HARDENED + 44, HARDENED + 60, HARDENED, 0]

  datatype ParseError = EmptyPath | AmbiguousPath | InvalidComponent | OutOfRange

  datatype Result<T> = Ok(value: T) | Err(error: ParseError)

  // ---- Strings ----

  predicate IsSpace(c: char) {
    || '\t' <= c <= '\r' || c == ' ' || c == '\U{85}' || c == '\U{A0}' || c == '\U{1680}'
    || '\U{2000}' <= c <= '\U{200A}' || c == '\U{2028}' || c == '\U{2029}' || c == '\U{202F}'
    || c == '\U{205F}' || c == '\U{3000}'
  }

  function TrimLeft(s: string): string {
    if s != [] && IsSpace(s[0]) then TrimLeft(s[1..]) else s
  }

  function TrimRight(s: string): string {
    if s != [] && IsSpace(s[|s| - 1]) then TrimRight(s[..|s| - 1]) else s
  }

  function TrimSpace(s: string): string {
    TrimRight(TrimLeft(s))
  }

  /** The parts between slashes; there is always at least one. */
  function Split(s: string): (parts: seq<string>)
    ensures parts != []
  {
    if s == [] then [[]] else Prefix(s[0], Split(s[1..]))
  }

  /** The parts with one more character in front. */
  function Prefix(c: char, parts: seq<string>): seq<string>
    requires parts != []
  {
    if c == '/' then [[]] + parts else [[c] + parts[0]] + parts[1..]
  }

  lemma {:induction false} SplitPlain(s: string)
    requires '/' !in s
    ensures Split(s) == [s]
  {
    if s != [] {
      SplitPlain(s[1..]);
      assert s == [s[0]] + s[1..];
    }
  }

  // ---- Numbers ----

  function Digit(d: nat): char
    requires d < 10
  {
    '0' + d as char
  }

  function Decimal(n: nat): string {
    if n < 10 then [Digit(n)] else Decimal(n / 10) + [Digit(n % 10)]
  }

  /** The value of a character as a digit; 36 if it is none. */
  function DigitValue(c: char): nat {
    if '0' <= c <= '9' then c as nat - '0' as nat
    else if 'a' <= c <= 'z' then c as nat - 'a' as nat + 10
    else if 'A' <= c <= 'Z' then c as nat - 'A' as nat + 10
    else 36
  }

  /** Reads digits in the given base, which single underscores may separate. `joint` says whether
      an underscore may come next, `some` whether there has been a digit. */
  function Scan(s: string, base: nat, value: nat, joint: bool, some: bool): (r: Result<nat>) {
    if s == [] then (if some && joint then Ok(value) else Err(InvalidComponent))
    else if s[0] == '_' then (if joint then Scan(s[1..], base, value, false, some) else Err(InvalidComponent))
    else if DigitValue(s[0]) < base then Scan(s[1..], base, value * base + DigitValue(s[0]), true, true)
    else Err(InvalidComponent)
  }

  /** A number whose prefix gives the base: 0b, 0o, 0x, 0 for octal, or none for decimal. */
  function Magnitude(s: string): Result<nat> {
    if |s| < 2 || s[0] != '0' then Scan(s, 10, 0, false, false)
    else if s[1] in "bB" then Scan(s[2..], 2, 0, true, false)
    else if s[1] in "oO" then Scan(s[2..], 8, 0, true, false)
    else if s[1] in "xX" then Scan(s[2..], 16, 0, true, false)
    else Scan(s[1..], 8, 0, true, false)
  }

  /** big.Int's SetString with base 0. */
  function SetString(s: string): Result<int> {
    if s != [] && s[0] in "+-" then
      var m := Magnitude(s[1..]);
      if m.Err? then Err(m.error) else Ok(if s[0] == '-' then 0 - m.value else m.value)
    else
      var m := Magnitude(s);
      if m.Err? then Err(m.error) else Ok(m.value)
  }

  // ---- Components and paths ----

  function ParseComponent(part: string): Result<Uint32> {
    var trimmed := TrimSpace(part);
    var hardened := trimmed != [] && trimmed[|trimmed| - 1] == '\'';
    var offset := if hardened then HARDENED else 0;
    var number := SetString(if hardened then TrimSpace(trimmed[..|trimmed| - 1]) else trimmed);
    if number.Err? then Err(number.error)
    else if number.value < 0 || number.value > MAX_UINT32 - offset then Err(OutOfRange)
    else Ok(number.value + offset)
  }

  function ParseComponents(parts: seq<string>): (r: Result<Path>)
    ensures r.Ok? ==> |r.value| == |parts|
  {
    if parts == [] then Ok([]) else
      var init := ParseComponents(parts[..|parts| - 1]);
      if init.Err? then init else
        var last := ParseComponent(parts[|parts| - 1]);
        if last.Err? then Err(last.error) else Ok(init.value + [last.value])
  }

  /** The meaning of a path string: absolute after `m`, otherwise below the default root. */
  function Parse(path: string): (r: Result<Path>)
    ensures r.Ok? ==> r.value != []
  {
    var parts := Split(path);
    var first := TrimSpace(parts[0]);
    if first == [] then Err(AmbiguousPath)
    else if first != "m" then
      var rest := ParseComponents(parts);
      if rest.Err? then rest else Ok(DEFAULT_ROOT + rest.value)
    else if |parts| == 1 then Err(EmptyPath)
    else ParseComponents(parts[1..])
  }

  function PrintComponent(c: Uint32): string {
    if c >= HARDENED then Decimal(c - HARDENED) + "'" else Decimal(c)
  }

  function Print(path: Path): string {
    if path == [] then "m" else Print(path[..|path| - 1]) + "/" + PrintComponent(path[|path| - 1])
  }

  method ParseDerivationPath(path: string) returns (r: Result<Path>)
    ensures r == Parse(path)
  {
    hide TrimSpace, Split, ParseComponent;
    var result: Path := [];
    var components := Split(path);
    if TrimSpace(components[0]) == "" {
      return Err(AmbiguousPath);
    } else if TrimSpace(components[0]) == "m" {
      components := components[1..];
    } else {
      result := DEFAULT_ROOT;
    }
    if components == [] {
      return Err(EmptyPath);
    }
    ghost var root := result;
    for i := 0 to |components|
      invariant ParseComponents(components[..i]).Ok? && result == root + ParseComponents(components[..i]).value
    {
      assert components[..i + 1][..i] == components[..i];
      var value := ParseComponent(components[i]);
      if value.Err? {
        ParseFails(components, i + 1);
        return Err(value.error);
      }
      result := result + [value.value];
    }
    assert components[..|components|] == components;
    assert [] + ParseComponents(components).value == ParseComponents(components).value;
    r := Ok(result);
  }

  lemma {:induction false} ParseFails(parts: seq<string>, i: nat)
    requires i <= |parts| && ParseComponents(parts[..i]).Err?
    ensures ParseComponents(parts) == ParseComponents(parts[..i])
    decreases |parts| - i
  {
    if i < |parts| {
      assert parts[..i + 1][..i] == parts[..i];
      ParseFails(parts, i + 1);
    } else {
      assert parts[..i] == parts;
    }
  }

  method String(path: Path) returns (result: string)
    ensures result == Print(path)
  {
    result := "m";
    for i := 0 to |path|
      invariant result == Print(path[..i])
    {
      assert path[..i + 1][..i] == path[..i];
      var component, hardened := path[i], false;
      if component >= HARDENED {
        component, hardened := component - HARDENED, true;
      }
      ghost var before := result;
      result := result + "/" + Decimal(component);
      if hardened {
        result := result + "'";
        assert result == before + "/" + (Decimal(component) + "'");
      }
    }
    assert path[..|path|] == path;
  }

  // ---- Round trip ----

  ghost predicate AllDigits(s: string) {
    s != [] && forall i :: 0 <= i < |s| ==> '0' <= s[i] <= '9'
  }

  /** A printed number consists of digits and does not begin with a zero unless it is zero. */
  lemma {:induction false} DecimalShape(n: nat)
    ensures AllDigits(Decimal(n)) && (|Decimal(n)| >= 2 ==> Decimal(n)[0] != '0') && (n > 0 ==> Decimal(n)[0] != '0')
  {
    if n >= 10 {
      DecimalShape(n / 10);
    }
  }

  lemma {:induction false} ScanDecimal(n: nat)
    ensures Scan(Decimal(n), 10, 0, false, false) == Ok(n)
  {
    if n >= 10 {
      ScanDecimalWith(n / 10, [Digit(n % 10)]);
    }
  }

  lemma {:induction false} ScanDecimalWith(n: nat, t: string)
    ensures Scan(Decimal(n) + t, 10, 0, false, false) == Scan(t, 10, n, true, true)
    decreases n
  {
    if n >= 10 {
      var last := [Digit(n % 10)];
      assert Decimal(n) + t == Decimal(n / 10) + (last + t);
      ScanDecimalWith(n / 10, last + t);
      assert (last + t)[1..] == t;
    } else {
      assert (Decimal(n) + t)[1..] == t;
    }
  }

  lemma SetStringDecimal(n: nat)
    ensures SetString(Decimal(n)) == Ok(n)
  {
    DecimalShape(n);
    ScanDecimal(n);
  }

  /** Text without white space at its ends is left alone. */
  lemma TrimNothing(s: string)
    requires s == [] || (!IsSpace(s[0]) && !IsSpace(s[|s| - 1]))
    ensures TrimSpace(s) == s
  {
  }

  lemma ComponentRoundTrip(c: Uint32)
    ensures ParseComponent(PrintComponent(c)) == Ok(c) && '/' !in PrintComponent(c)
  {
    hide SetString, Decimal, TrimSpace;
    var n := if c >= HARDENED then c - HARDENED else c;
    DecimalShape(n);
    SetStringDecimal(n);
    var s := PrintComponent(c);
    assert forall i :: 0 <= i < |s| ==> '0' <= s[i] <= '9' || s[i] == '\'';
    TrimNothing(s);
    TrimNothing(Decimal(n));
    if c >= HARDENED {
      assert s[..|s| - 1] == Decimal(n);
    }
  }

  function Components(path: Path): seq<string> {
    if path == [] then [] else Components(path[..|path| - 1]) + [PrintComponent(path[|path| - 1])]
  }

  lemma {:induction false} SplitPrinted(path: Path)
    ensures Split(Print(path)) == ["m"] + Components(path)
    decreases |path|
  {
    hide PrintComponent, Split, ParseComponent;
    if path == [] {
      SplitPlain("m");
    } else {
      var init, last := path[..|path| - 1], PrintComponent(path[|path| - 1]);
      ComponentRoundTrip(path[|path| - 1]);
      SplitPrinted(init);
      SplitJoined(Print(init), last);
      SplitPlain(last);
    }
  }

  lemma SplitSlash(b: string)
    ensures Split("/" + b) == Split("") + Split(b)
  {
    assert ("/" + b)[1..] == b;
  }

  lemma SplitStep(s: string)
    requires s != []
    ensures Split(s) == Prefix(s[0], Split(s[1..]))
  {
  }

  lemma Prefixed(c: char, parts: seq<string>, more: seq<string>)
    requires parts != []
    ensures Prefix(c, parts + more) == Prefix(c, parts) + more
  {
    assert (parts + more)[1..] == parts[1..] + more;
  }

  lemma {:induction false} SplitJoined(a: string, b: string)
    ensures Split(a + "/" + b) == Split(a) + Split(b)
    decreases |a|
  {
    hide Split;
    if a == [] {
      SplitSlash(b);
      assert a + "/" + b == "/" + b;
    } else {
      var s := a + "/" + b;
      SplitJoined(a[1..], b);
      assert s[1..] == a[1..] + "/" + b && s[0] == a[0];
      SplitStep(s);
      SplitStep(a);
      Prefixed(a[0], Split(a[1..]), Split(b));
    }
  }

  lemma ParseSnoc(parts: seq<string>, part: string)
    requires ParseComponents(parts).Ok? && ParseComponent(part).Ok?
    ensures ParseComponents(parts + [part]) == Ok(ParseComponents(parts).value + [ParseComponent(part).value])
  {
    hide ParseComponent;
    assert (parts + [part])[..|parts|] == parts;
  }

  lemma {:induction false} ParsePrinted(path: Path)
    ensures ParseComponents(Components(path)) == Ok(path)
    decreases |path|
  {
    hide ParseComponent, PrintComponent;
    if path != [] {
      var init, last := path[..|path| - 1], path[|path| - 1];
      ParsePrinted(init);
      ComponentRoundTrip(last);
      ParseSnoc(Components(init), PrintComponent(last));
      assert path == init + [last];
    }
  }

  /** Parsing a printed path gives the path back; only the empty path cannot be read back. */
  lemma RoundTrip(path: Path)
    ensures Parse(Print(path)) == if path == [] then Err(EmptyPath) else Ok(path)
  {
    SplitPrinted(path);
    ParsePrinted(path);
    TrimNothing("m");
    assert (["m"] + Components(path))[1..] == Components(path);
  }

  lemma {:induction false} ParseJoined(a: seq<string>, b: seq<string>)
    requires ParseComponents(a).Ok?
    ensures ParseComponents(a + b) ==
      if ParseComponents(b).Err? then ParseComponents(b) else Ok(ParseComponents(a).value + ParseComponents(b).value)
    decreases |b|
  {
    hide ParseComponent;
    if b == [] {
      assert a + b == a && ParseComponents(a).value + [] == ParseComponents(a).value;
    } else {
      var init := b[..|b| - 1];
      ParseJoined(a, init);
      assert (a + b)[..|a + b| - 1] == a + init;
      if ParseComponents(b).Ok? {
        var last := ParseComponent(b[|b| - 1]).value;
        assert ParseComponents(a).value + (ParseComponents(init).value + [last]) == ParseComponents(a).value + ParseComponents(init).value + [last];
      }
    }
  }

  lemma PrintSnoc(path: Path, c: Uint32)
    ensures Print(path + [c]) == Print(path) + "/" + PrintComponent(c)
  {
    assert (path + [c])[..|path|] == path;
  }

  lemma RootComponents()
    ensures PrintComponent(HARDENED + 44) == "44'" && PrintComponent(HARDENED + 60) == "60'"
    ensures PrintComponent(HARDENED) == "0'" && PrintComponent(0) == "0"
  {
    assert Decimal(4) == "4" && Decimal(6) == "6" && Decimal(0) == "0";
    assert Decimal(44) == "4" + "4" && Decimal(60) == "6" + "0";
  }

  lemma DefaultRootPrinted()
    ensures Print(DEFAULT_ROOT) == "m/44'/60'/0'/0"
  {
    hide PrintComponent;
    RootComponents();
    var p1, p2, p3 := [HARDENED + 44], [HARDENED + 44, HARDENED + 60], [HARDENED + 44, HARDENED + 60, HARDENED];
    assert Print(p1) == "m/44'" by {
      PrintSnoc([], HARDENED + 44);
      assert [] + p1 == p1;
    }
    assert Print(p2) == "m/44'/60'" by {
      PrintSnoc(p1, HARDENED + 60);
      assert p1 + [HARDENED + 60] == p2;
    }
    assert Print(p3) == "m/44'/60'/0'" by {
      PrintSnoc(p2, HARDENED);
      assert p2 + [HARDENED] == p3;
    }
    PrintSnoc(p3, 0);
    assert p3 + [0] == DEFAULT_ROOT;
  }

  /** A relative path means the same, errors included, as the absolute path below the root of the
      Ethereum accounts. */
  lemma RelativePath(s: string)
    requires TrimSpace(Split(s)[0]) != "" && TrimSpace(Split(s)[0]) != "m"
    ensures Parse(s) == Parse("m/44'/60'/0'/0" + "/" + s)
  {
    hide TrimSpace, Split, ParseComponents, Print, Components;
    var root := Components(DEFAULT_ROOT);
    DefaultRootPrinted();
    SplitPrinted(DEFAULT_ROOT);
    SplitJoined("m/44'/60'/0'/0", s);
    ParsePrinted(DEFAULT_ROOT);
    ParseJoined(root, Split(s));
    TrimNothing("m");
    assert (["m"] + root + Split(s))[1..] == root + Split(s);
  }

  /** Printing what was read and reading it again changes nothing. */
  lemma Stable(s: string)
    requires Parse(s).Ok?
    ensures Parse(Print(Parse(s).value)) == Parse(s)
  {
    RoundTrip(Parse(s).value);
  }
}
