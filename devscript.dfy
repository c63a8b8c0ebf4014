/** The two text parsers of the dev-server launcher: choosing the port from
    the environment, and reading process ids out of the output of a
    port-lookup command. The environment is a map from variable name to
    value; an absent key is an unset variable. */
module DevScript {
  import opened Wrappers

  // ---------------------------------------------------------------------------
  // JavaScript text primitives
  // ---------------------------------------------------------------------------

  /** White space as `String.prototype.trim`, `Number.parseInt` and the
      regular-expression class `\s` see it: ECMAScript's WhiteSpace (tab,
      vertical tab, form feed, byte-order mark and the Unicode space
      separators) and LineTerminator characters. */
  predicate IsJsSpace(c: char) {
    c == '\t' || c == '\U{B}' || c == '\U{C}' || c == '\U{FEFF}' ||
    c == ' ' || c == '\U{A0}' || c == '\U{1680}' || '\U{2000}' <= c <= '\U{200A}' ||
    c == '\U{202F}' || c == '\U{205F}' || c == '\U{3000}' ||
    c == '\n' || c == '\r' || c == '\U{2028}' || c == '\U{2029}'
  }

  predicate IsDigit(c: char) {
    '0' <= c <= '9'
  }

  lemma DigitIsNotSpace(c: char)
    requires IsDigit(c)
    ensures !IsJsSpace(c)
  {
  }

  /** Text that starts with a digit has no leading white space to skip. */
  lemma StartsWithDigit(s: string)
    requires s != [] && IsDigit(s[0])
    ensures TrimStart(s) == s
  {
    DigitIsNotSpace(s[0]);
  }

  predicate AllSpace(s: string) {
    forall i :: 0 <= i < |s| ==> IsJsSpace(s[i])
  }

  predicate AllDigits(s: string) {
    forall i :: 0 <= i < |s| ==> IsDigit(s[i])
  }

  /** Leading white space removed. */
  function TrimStart(s: string): (r: string)
    ensures |r| <= |s| && r == s[|s| - |r|..]
    ensures AllSpace(s[..|s| - |r|])
    ensures r != [] ==> !IsJsSpace(r[0])
  {
    if s != [] && IsJsSpace(s[0]) then TrimStart(s[1..]) else s
  }

  /** Trailing white space removed. */
  function TrimEnd(s: string): (r: string)
    ensures |r| <= |s| && r == s[..|r|]
    ensures AllSpace(s[|r|..])
    ensures r != [] ==> !IsJsSpace(r[|r| - 1])
  {
    if s != [] && IsJsSpace(s[|s| - 1]) then TrimEnd(s[..|s| - 1]) else s
  }

  /** `String.prototype.trim`. */
  function Trim(s: string): string {
    TrimEnd(TrimStart(s))
  }

  /** Trimming removes white space from both ends and nothing else: the result
      is a stretch of the input with only white space around it. */
  lemma TrimSpec(s: string)
    ensures var r := Trim(s);
            exists a :: 0 <= a <= |s| - |r| && r == s[a..a + |r|] &&
                        AllSpace(s[..a]) && AllSpace(s[a + |r|..])
  {
    var t := TrimStart(s);
    var r := TrimEnd(t);
    var a := |s| - |t|;
    CutTwice(s, a, t, r);
    assert 0 <= a <= |s| - |r| && r == s[a..a + |r|] &&
           AllSpace(s[..a]) && AllSpace(s[a + |r|..]);
  }

  /** Cutting a prefix and then a suffix of white space leaves a stretch of
      the text with only white space after it. */
  lemma CutTwice(s: string, a: nat, t: string, r: string)
    requires a <= |s| && t == s[a..]
    requires |r| <= |t| && r == t[..|r|] && AllSpace(t[|r|..])
    ensures a + |r| <= |s| && r == s[a..a + |r|] && AllSpace(s[a + |r|..])
  {
    assert s[a + |r|..] == t[|r|..];
  }

  /** ... and the result neither starts nor ends with white space. */
  lemma TrimEdges(s: string)
    ensures Trim(s) != [] ==> !IsJsSpace(Trim(s)[0]) && !IsJsSpace(Trim(s)[|Trim(s)| - 1])
  {
    var t := TrimStart(s);
    var r := TrimEnd(t);
    if r != [] {
      assert r[0] == t[0];
    }
  }

  /** A line trims to nothing exactly when it is all white space. */
  lemma TrimEmptyIffBlank(s: string)
    ensures Trim(s) == [] <==> AllSpace(s)
  {
    var t := TrimStart(s);
    if Trim(s) == [] {
      assert s == s[..|s| - |t|] + t;
      assert t == t[0..];
    }
    if AllSpace(s) {
      TrimStartOfBlank(s);
    }
  }

  lemma {:induction false} TrimStartOfBlank(s: string)
    requires AllSpace(s)
    ensures TrimStart(s) == []
  {
    if s != [] {
      assert AllSpace(s[1..]);
      TrimStartOfBlank(s[1..]);
    }
  }

  // ---------------------------------------------------------------------------
  // Number.parseInt(s, 10)
  // ---------------------------------------------------------------------------

  /** The longest run of decimal digits at the start of s. */
  function DigitPrefix(s: string): (r: string)
    ensures r <= s
    ensures AllDigits(r)
    ensures |r| < |s| ==> !IsDigit(s[|r|])
  {
    if s != [] && IsDigit(s[0]) then [s[0]] + DigitPrefix(s[1..]) else []
  }

  /** The number a string of decimal digits denotes. */
  function DigitsValue(ds: string): nat
    requires AllDigits(ds)
  {
    if ds == [] then 0
    else DigitsValue(ds[..|ds| - 1]) * 10 + (ds[|ds| - 1] as int - '0' as int)
  }

  /** `Number.parseInt(s, 10)`, with None for NaN: leading white space is
      skipped, one sign is accepted, then the longest run of digits is
      read; no digits at all is NaN. */
  function ParseInt(s: string): Option<int> {
    ParseSigned(TrimStart(s))
  }

  /** The sign and digits part of `parseInt`, after the white space. */
  function ParseSigned(t: string): Option<int> {
    var negative := t != [] && t[0] == '-';
    var unsigned := if t != [] && (t[0] == '-' || t[0] == '+') then t[1..] else t;
    var digits := DigitPrefix(unsigned);
    if digits == [] then None
    else
      var magnitude: int := DigitsValue(digits);
      Some(if negative then -magnitude else magnitude)
  }

  /** `String(n)` for a natural number: its decimal digits, no leading zero. */
  function DecimalString(n: nat): (r: string)
    ensures r != [] && AllDigits(r)
    ensures DigitsValue(r) == n
    ensures |r| > 1 ==> r[0] != '0'
  {
    var last := [(n % 10 + '0' as int) as char];
    if n < 10 then last else DecimalString(n / 10) + last
  }

  /** Parsing reads back the decimal form of every natural number. */
  lemma ParseIntDecimal(n: nat)
    ensures ParseInt(DecimalString(n)) == Some(n)
  {
    var s := DecimalString(n);
    StartsWithDigit(s);
    assert s + [] == s;
    DigitPrefixOfDigits(s, []);
  }

  /** Leading white space never changes what parses. */
  lemma {:induction false} ParseIntSkipsSpace(ws: string, s: string)
    requires AllSpace(ws)
    ensures ParseInt(ws + s) == ParseInt(s)
  {
    SkipSpace(ws, s);
  }

  lemma {:induction false} SkipSpace(ws: string, s: string)
    requires AllSpace(ws)
    ensures TrimStart(ws + s) == TrimStart(s)
  {
    if ws != [] {
      assert (ws + s)[1..] == ws[1..] + s;
      SkipSpace(ws[1..], s);
    } else {
      assert ws + s == s;
    }
  }

  /** Parsing stops at the first character that is not a digit: a number
      followed by anything else (a unit, a second number after a space) is
      read as the number alone. */
  lemma {:induction false} ParseIntStopsAtNonDigit(ds: string, rest: string)
    requires ds != [] && AllDigits(ds)
    requires rest == [] || !IsDigit(rest[0])
    ensures ParseInt(ds + rest) == Some(DigitsValue(ds))
  {
    var s := ds + rest;
    assert s[0] == ds[0];
    StartsWithDigit(s);
    DigitPrefixOfDigits(ds, rest);
  }

  lemma {:induction false} DigitPrefixOfDigits(ds: string, rest: string)
    requires AllDigits(ds)
    requires rest == [] || !IsDigit(rest[0])
    ensures DigitPrefix(ds + rest) == ds
  {
    if ds == [] {
      assert ds + rest == rest;
    } else {
      assert (ds + rest)[1..] == ds[1..] + rest;
      DigitPrefixOfDigits(ds[1..], rest);
      assert ds == [ds[0]] + ds[1..];
    }
  }

  /** Text that starts with anything but white space has nothing to skip. */
  lemma NoLeadingSpace(t: string)
    requires t != [] && !IsJsSpace(t[0])
    ensures TrimStart(t) == t
  {
  }

  /** A sign directly before the digits is read with them: `-` negates, `+`
      does not. (Leading white space is skipped first, ParseIntSkipsSpace.) */
  lemma ParseIntSigned(sign: char, ds: string, rest: string)
    requires sign == '-' || sign == '+'
    requires ds != [] && AllDigits(ds)
    requires rest == [] || !IsDigit(rest[0])
    ensures var v: int := DigitsValue(ds);
            ParseInt([sign] + ds + rest) == Some(if sign == '-' then -v else v)
  {
    NoLeadingSpace([sign] + ds + rest);
    SignedDigits(sign, ds, rest);
  }

  lemma SignedDigits(sign: char, ds: string, rest: string)
    requires sign == '-' || sign == '+'
    requires ds != [] && AllDigits(ds)
    requires rest == [] || !IsDigit(rest[0])
    ensures var v: int := DigitsValue(ds);
            ParseSigned([sign] + ds + rest) == Some(if sign == '-' then -v else v)
  {
    var t := [sign] + ds + rest;
    assert t != [] && t[0] == sign && t[1..] == ds + rest;
    DigitPrefixOfDigits(ds, rest);
    assert DigitPrefix(t[1..]) == ds;
  }

  /** A sign that no digit follows is NaN: a lone sign, a doubled sign, a
      sign before white space or a letter. */
  lemma ParseIntSignWithoutDigits(sign: char, rest: string)
    requires sign == '-' || sign == '+'
    requires rest == [] || !IsDigit(rest[0])
    ensures ParseInt([sign] + rest) == None
  {
    NoLeadingSpace([sign] + rest);
    SignedWithoutDigits(sign, rest);
  }

  lemma SignedWithoutDigits(sign: char, rest: string)
    requires sign == '-' || sign == '+'
    requires rest == [] || !IsDigit(rest[0])
    ensures ParseSigned([sign] + rest) == None
  {
    var t := [sign] + rest;
    assert t[0] == sign && t[1..] == rest;
    NoDigitPrefix(rest);
  }

  lemma NoDigitPrefix(s: string)
    requires s == [] || !IsDigit(s[0])
    ensures DigitPrefix(s) == []
  {
  }

  /** Text that starts with neither white space, a sign nor a digit, and
      text that is empty, is NaN. */
  lemma ParseIntNoDigits(s: string)
    requires s != [] ==> !IsJsSpace(s[0]) && !IsDigit(s[0]) && s[0] != '-' && s[0] != '+'
    ensures ParseInt(s) == None
  {
    if s != [] {
      NoLeadingSpace(s);
    }
    assert DigitPrefix(s) == [];
  }

  // ---------------------------------------------------------------------------
  // resolvePort
  // ---------------------------------------------------------------------------

  /** The environment variables consulted, most specific first. */
  const PortEnvKeys: seq<string> := ["DEV_SERVER_PORT", "VITE_PORT", "PORT"]

  /** The port used when no variable gives a usable one. */
  const DefaultPort := 5173

  predicate IsPort(p: int) {
    0 < p < 65536
  }

  /** The default is itself a usable port. */
  lemma DefaultPortIsPort()
    ensures IsPort(DefaultPort)
  {
  }

  /** The port one variable offers: it is set, not empty, and parses to a
      number in 1..65535. */
  function PortFromKey(env: map<string, string>, key: string): Option<int> {
    if key !in env || env[key] == "" then None
    else match ParseInt(env[key])
      case Some(p) => if IsPort(p) then Some(p) else None
      case None => None
  }

  /** The port the first usable variable of `keys` offers. */
  function FirstPort(env: map<string, string>, keys: seq<string>): (r: Option<int>)
    ensures r.Some? ==> IsPort(r.value)
  {
    if keys == [] then None
    else match PortFromKey(env, keys[0])
      case Some(p) =>
        assert IsPort(p);
        Some(p)
      case None => FirstPort(env, keys[1..])
  }

  /** The first usable variable wins, whatever the later ones say. */
  lemma {:induction false} FirstPortIsFirstUsable(env: map<string, string>, keys: seq<string>, i: nat)
    requires i < |keys| && PortFromKey(env, keys[i]).Some?
    requires forall j :: 0 <= j < i ==> PortFromKey(env, keys[j]).None?
    ensures FirstPort(env, keys) == PortFromKey(env, keys[i])
  {
    if i > 0 {
      FirstPortIsFirstUsable(env, keys[1..], i - 1);
    }
  }

  /** No port comes out exactly when no variable is usable. */
  lemma {:induction false} FirstPortNone(env: map<string, string>, keys: seq<string>)
    ensures FirstPort(env, keys).None? <==> forall j :: 0 <= j < |keys| ==> PortFromKey(env, keys[j]).None?
  {
    if keys != [] {
      FirstPortNone(env, keys[1..]);
      assert forall j :: 1 <= j < |keys| ==> keys[j] == keys[1..][j - 1];
    }
  }

  /** `resolvePort(defaultPort = 5173)`: the first usable variable's port, or
      the default. */
  method ResolvePort(env: map<string, string>, defaultPort: int := DefaultPort) returns (port: int)
    ensures port == match FirstPort(env, PortEnvKeys) case Some(p) => p case None => defaultPort
    ensures IsPort(defaultPort) ==> IsPort(port)
  {
    var i := 0;
    while i < |PortEnvKeys|
      invariant 0 <= i <= |PortEnvKeys|
      invariant FirstPort(env, PortEnvKeys) == FirstPort(env, PortEnvKeys[i..])
    {
      assert PortEnvKeys[i..][1..] == PortEnvKeys[i + 1..];
      var key := PortEnvKeys[i];
      if key !in env || env[key] == "" {
        i := i + 1;
        continue;
      }
      var parsed := ParseInt(env[key]);
      if parsed.Some? && 0 < parsed.value < 65536 {
        return parsed.value;
      }
      i := i + 1;
    }
    return defaultPort;
  }

  /** `main`'s call `resolvePort()`: with the default left out, the launcher
      takes the first usable variable's port, or 5173, and so always a port
      in 1..65535. */
  method LauncherPort(env: map<string, string>) returns (port: int)
    ensures port == match FirstPort(env, PortEnvKeys) case Some(p) => p case None => 5173
    ensures IsPort(port)
  {
    DefaultPortIsPort();
    port := ResolvePort(env);
  }

  /** The launcher hands its child the chosen port in all three variables,
      as a decimal string; resolving the port in that environment gives the
      same port back. */
  lemma LaunchEnvResolvesToPort(env: map<string, string>, port: int)
    requires IsPort(port)
    ensures var value := DecimalString(port);
            var child := env["PORT" := value]["VITE_PORT" := value]["DEV_SERVER_PORT" := value];
            FirstPort(child, PortEnvKeys) == Some(port)
  {
    ParseIntDecimal(port);
  }

  // ---------------------------------------------------------------------------
  // parsePidsFromOutput
  // ---------------------------------------------------------------------------

  function FirstNewline(s: string): (i: nat)
    requires '\n' in s
    ensures i < |s| && s[i] == '\n' && '\n' !in s[..i]
  {
    if s[0] == '\n' then 0 else 1 + FirstNewline(s[1..])
  }

  /** One carriage return before a line feed belongs to the separator. */
  function DropCr(piece: string): string {
    if piece != [] && piece[|piece| - 1] == '\r' then piece[..|piece| - 1] else piece
  }

  /** `s.split(/\r?\n/)`. */
  function SplitLines(s: string): (r: seq<string>)
    ensures r != []
    decreases |s|
  {
    if '\n' !in s then [s]
    else
      var i := FirstNewline(s);
      [DropCr(s[..i])] + SplitLines(s[i + 1..])
  }

  function JoinLines(lines: seq<string>): string {
    if lines == [] then []
    else if |lines| == 1 then lines[0]
    else lines[0] + "\n" + JoinLines(lines[1..])
  }

  /** Splitting cuts at every line feed: no piece holds one. */
  lemma {:induction false} SplitLinesNoLineFeed(s: string)
    ensures forall k :: 0 <= k < |SplitLines(s)| ==> '\n' !in SplitLines(s)[k]
    decreases |s|
  {
    if '\n' in s {
      var i := FirstNewline(s);
      SplitLinesNoLineFeed(s[i + 1..]);
      var head, tail := DropCr(s[..i]), SplitLines(s[i + 1..]);
      assert '\n' !in head by {
        assert forall c :: c in head ==> c in s[..i];
      }
      assert SplitLines(s) == [head] + tail;
    }
  }

  /** Splitting text without carriage returns cuts it at its line feeds and
      nowhere else: no piece holds a line feed, and joining the pieces with
      line feeds gives the text back. */
  lemma {:induction false} SplitLinesJoin(s: string)
    requires '\r' !in s
    ensures forall k :: 0 <= k < |SplitLines(s)| ==> '\n' !in SplitLines(s)[k]
    ensures JoinLines(SplitLines(s)) == s
    decreases |s|
  {
    SplitLinesNoLineFeed(s);
    if '\n' in s {
      var i := FirstNewline(s);
      CutWithoutCr(s, i);
      SplitLinesJoin(s[i + 1..]);
    }
  }

  /** Text without carriage returns, cut at a line feed: the piece before it
      keeps every character, and the rest has no carriage return either. */
  lemma CutWithoutCr(s: string, i: nat)
    requires '\r' !in s && i < |s| && s[i] == '\n'
    ensures DropCr(s[..i]) == s[..i] && '\r' !in s[i + 1..]
    ensures s == s[..i] + "\n" + s[i + 1..]
  {
    if i > 0 {
      assert s[i - 1] in s;
    }
    assert forall c :: c in s[i + 1..] ==> c in s;
  }

  /** Lines joined with carriage return and line feed, as Windows tools end
      their lines. */
  function JoinCrlf(lines: seq<string>): string {
    if lines == [] then []
    else if |lines| == 1 then lines[0]
    else lines[0] + "\r\n" + JoinCrlf(lines[1..])
  }

  /** The carriage return before each line feed belongs to the separator:
      splitting CR LF text gives back its lines, without the carriage
      returns. */
  lemma {:induction false} SplitLinesCrlf(lines: seq<string>)
    requires lines != []
    requires forall k :: 0 <= k < |lines| ==> '\n' !in lines[k]
    ensures SplitLines(JoinCrlf(lines)) == lines
  {
    if |lines| > 1 {
      var a, rest := lines[0], JoinCrlf(lines[1..]);
      var s := JoinCrlf(lines);
      assert s == a + "\r\n" + rest;
      var n := |a| + 1;
      assert s[n] == '\n';
      var i := FirstNewline(s);
      assert i == n;
      assert s[..i] == a + "\r";
      assert DropCr(s[..i]) == a;
      assert s[i + 1..] == rest;
      assert forall k :: 0 <= k < |lines[1..]| ==> lines[1..][k] == lines[k + 1];
      SplitLinesCrlf(lines[1..]);
    }
  }

  /** `parts = line.split(/\s+/); parts[parts.length - 1]`: the characters
      after the last run of white space. */
  function LastToken(s: string): (r: string)
    ensures |r| <= |s| && r == s[|s| - |r|..]
    ensures forall i :: 0 <= i < |r| ==> !IsJsSpace(r[i])
    ensures |r| < |s| ==> IsJsSpace(s[|s| - |r| - 1])
  {
    if s == [] || IsJsSpace(s[|s| - 1]) then []
    else LastToken(s[..|s| - 1]) + [s[|s| - 1]]
  }

  /** Each element's contribution, concatenated in order. */
  function FlatMap<A, B>(xs: seq<A>, f: A -> seq<B>): seq<B> {
    if xs == [] then [] else f(xs[0]) + FlatMap(xs[1..], f)
  }

  lemma {:induction false} FlatMapAppend<A, B>(xs: seq<A>, ys: seq<A>, f: A -> seq<B>)
    ensures FlatMap(xs + ys, f) == FlatMap(xs, f) + FlatMap(ys, f)
  {
    if xs == [] {
      assert xs + ys == ys;
    } else {
      assert (xs + ys)[0] == xs[0] && (xs + ys)[1..] == xs[1..] + ys;
      FlatMapAppend(xs[1..], ys, f);
    }
  }

  lemma FlatMapOfOne<A, B>(x: A, f: A -> seq<B>)
    ensures FlatMap([x], f) == f(x)
  {
    assert [x][1..] == [];
    assert f(x) + [] == f(x);
  }

  /** What one line adds to the list: nothing when it trims to nothing,
      otherwise the parse of its last token. */
  function LineEntry(line: string): seq<Option<int>> {
    var t := Trim(line);
    if t == [] then [] else [ParseInt(LastToken(t))]
  }

  /** `.map(line => line.trim()).filter(Boolean).map(...)`: one entry per
      non-blank line, the parse of its last token, None for NaN. */
  function LinePids(lines: seq<string>): seq<Option<int>> {
    FlatMap(lines, LineEntry)
  }

  /** A blank or white-space-only line contributes nothing, wherever it is. */
  lemma BlankLineContributesNothing(before: seq<string>, line: string, after: seq<string>)
    requires AllSpace(line)
    ensures LinePids(before + [line] + after) == LinePids(before + after)
  {
    TrimEmptyIffBlank(line);
    FlatMapAppend(before + [line], after, LineEntry);
    FlatMapAppend(before, [line], LineEntry);
    FlatMapAppend(before, after, LineEntry);
    FlatMapOfOne(line, LineEntry);
    assert LineEntry(line) == [];
    assert LinePids(before) + [] == LinePids(before);
  }

  /** Any other line contributes the parse of its last token. */
  lemma NonBlankLineContributesLastToken(before: seq<string>, line: string, after: seq<string>)
    requires !AllSpace(line)
    ensures LinePids(before + [line] + after) ==
            LinePids(before) + [ParseInt(LastToken(Trim(line)))] + LinePids(after)
  {
    TrimEmptyIffBlank(line);
    FlatMapAppend(before + [line], after, LineEntry);
    FlatMapAppend(before, [line], LineEntry);
    FlatMapOfOne(line, LineEntry);
  }

  /** `arr.indexOf(x)`: the first position of x, or -1. */
  function IndexOf<T(==)>(arr: seq<T>, x: T): (r: int)
    ensures -1 <= r < |arr|
    ensures r == -1 <==> x !in arr
    ensures r >= 0 ==> arr[r] == x
  {
    if arr == [] then -1
    else if arr[0] == x then 0
    else
      var k := IndexOf(arr[1..], x);
      assert arr == [arr[0]] + arr[1..];
      if k == -1 then -1 else k + 1
  }

  /** No earlier position holds x. */
  lemma {:induction false} IndexOfIsFirst<T>(arr: seq<T>, x: T)
    requires x in arr
    ensures x !in arr[..IndexOf(arr, x)]
  {
    if arr[0] != x {
      assert arr == [arr[0]] + arr[1..];
      IndexOfIsFirst(arr[1..], x);
      assert arr[..IndexOf(arr, x)] == [arr[0]] + arr[1..][..IndexOf(arr[1..], x)];
    }
  }

  /** `.filter((pid, index, arr) => pid !== null && arr.indexOf(pid) === index)`
      applied to the entries from position i on. */
  function KeepFirstFrom(arr: seq<Option<int>>, i: nat): seq<int>
    requires i <= |arr|
    decreases |arr| - i
  {
    if i == |arr| then []
    else (if arr[i].Some? && IndexOf(arr, arr[i]) == i then [arr[i].value] else []) + KeepFirstFrom(arr, i + 1)
  }

  /** From position i on the filter keeps exactly the numbers first seen at
      or after i. */
  lemma {:induction false} KeepFirstMembers(arr: seq<Option<int>>, i: nat)
    requires i <= |arr|
    ensures forall p :: p in KeepFirstFrom(arr, i) <==> IndexOf(arr, Some(p)) >= i
    decreases |arr| - i
  {
    if i < |arr| {
      KeepFirstMembers(arr, i + 1);
      var rest := KeepFirstFrom(arr, i + 1);
      var r := KeepFirstFrom(arr, i);
      if arr[i].Some? && IndexOf(arr, arr[i]) == i {
        var h := arr[i].value;
        assert r == [h] + rest;
        forall p
          ensures p in r <==> IndexOf(arr, Some(p)) >= i
        {
          assert p in r <==> p == h || p in rest;
        }
      } else {
        assert r == rest;
      }
    }
  }

  /** The numbers of r appear in arr in the order in which r lists them. */
  predicate InFirstSeenOrder(arr: seq<Option<int>>, r: seq<int>) {
    forall a, b :: 0 <= a < b < |r| ==> IndexOf(arr, Some(r[a])) < IndexOf(arr, Some(r[b]))
  }

  /** ... and keeps them in the order of their first occurrence. */
  lemma {:induction false} KeepFirstOrder(arr: seq<Option<int>>, i: nat)
    requires i <= |arr|
    ensures InFirstSeenOrder(arr, KeepFirstFrom(arr, i))
    decreases |arr| - i
  {
    if i < |arr| {
      KeepFirstOrder(arr, i + 1);
      KeepFirstStep(arr, i);
    }
  }

  /** One step of the filter keeps first-occurrence order. */
  lemma KeepFirstStep(arr: seq<Option<int>>, i: nat)
    requires i < |arr|
    requires InFirstSeenOrder(arr, KeepFirstFrom(arr, i + 1))
    ensures InFirstSeenOrder(arr, KeepFirstFrom(arr, i))
  {
    var rest := KeepFirstFrom(arr, i + 1);
    if arr[i].Some? && IndexOf(arr, arr[i]) == i {
      KeptLater(arr, i);
      PrependInOrder(arr, arr[i].value, rest);
    }
  }

  /** Everything the filter keeps after position i is first seen after i. */
  lemma KeptLater(arr: seq<Option<int>>, i: nat)
    requires i < |arr|
    ensures forall p :: p in KeepFirstFrom(arr, i + 1) ==> IndexOf(arr, Some(p)) > i
  {
    KeepFirstMembers(arr, i + 1);
  }

  /** A number seen before all of an ordered list's numbers can go first. */
  lemma PrependInOrder(arr: seq<Option<int>>, h: int, rest: seq<int>)
    requires InFirstSeenOrder(arr, rest)
    requires forall p :: p in rest ==> IndexOf(arr, Some(h)) < IndexOf(arr, Some(p))
    ensures InFirstSeenOrder(arr, [h] + rest)
  {
    var r := [h] + rest;
    forall a, b | 0 <= a < b < |r|
      ensures IndexOf(arr, Some(r[a])) < IndexOf(arr, Some(r[b]))
    {
      assert r[b] == rest[b - 1] && rest[b - 1] in rest;
      if a > 0 {
        assert r[a] == rest[a - 1];
      }
    }
  }

  /** The filter as a whole keeps every number of the list exactly once, in
      the order of first occurrence. */
  lemma KeepFirstSpec(found: seq<Option<int>>)
    ensures var r := KeepFirstFrom(found, 0);
            (forall p :: p in r <==> Some(p) in found) &&
            (forall a, b :: 0 <= a < b < |r| ==> r[a] != r[b]) &&
            InFirstSeenOrder(found, r)
  {
    KeepFirstMembers(found, 0);
    KeepFirstOrder(found, 0);
  }

  /** `parsePidsFromOutput`. Output that is absent or empty gives no ids. */
  function ParsePidsFromOutput(output: Option<string>): seq<int> {
    if output.None? || output.value == [] then []
    else KeepFirstFrom(LinePids(SplitLines(output.value)), 0)
  }

  /** The ids found are exactly the numbers the lines yield, each once, in
      the order in which they first appear; no output gives no ids. */
  lemma ParsePidsSpec(output: string)
    ensures ParsePidsFromOutput(None) == []
    ensures var found := LinePids(SplitLines(output));
            var r := ParsePidsFromOutput(Some(output));
            (forall p :: p in r <==> Some(p) in found) &&
            (forall a, b :: 0 <= a < b < |r| ==> r[a] != r[b]) &&
            InFirstSeenOrder(found, r)
  {
    if output == [] {
      assert SplitLines(output) == [[]];
      FlatMapOfOne([], LineEntry);
      assert LineEntry([]) == [];
    } else {
      KeepFirstSpec(LinePids(SplitLines(output)));
    }
  }
}
