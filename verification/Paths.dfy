/** BIP-32 derivation paths as text, and the BIP-86 shape check. */
module Paths {
  import opened Bytes
  import opened Wrappers

  const HARDENED: nat := 0x8000_0000
  const BIP86_PURPOSE: nat := 0x8000_0056
  const BIP86_PATH_LEN: nat := 5

  // ---------- Rust string operations ----------

  /** The White_Space property of Unicode. */
  predicate IsWhitespace(ch: char) {
    var n := ch as int;
    || 0x9 <= n <= 0xD || n == 0x20 || n == 0x85 || n == 0xA0 || n == 0x1680
    || 0x2000 <= n <= 0x200A || n == 0x2028 || n == 0x2029 || n == 0x202F || n == 0x205F || n == 0x3000
  }

  function TrimStart(s: string): string {
    if s != [] && IsWhitespace(s[0]) then TrimStart(s[1..]) else s
  }

  function TrimEnd(s: string): string {
    if s != [] && IsWhitespace(s[|s| - 1]) then TrimEnd(s[..|s| - 1]) else s
  }

  function Trim(s: string): string { TrimEnd(TrimStart(s)) }

  /** The pieces between separators; never empty. */
  function Split(s: string, sep: char): (parts: seq<string>)
    ensures |parts| >= 1
  {
    if s == [] then [[]]
    else
      var rest := Split(s[1..], sep);
      if s[0] == sep then [[]] + rest else [[s[0]] + rest[0]] + rest[1..]
  }

  predicate IsDigit(ch: char) { '0' <= ch <= '9' }

  predicate AllDigits(s: string) {
    forall i :: 0 <= i < |s| ==> IsDigit(s[i])
  }

  function Value(s: string): nat
    requires AllDigits(s)
  {
    if s == [] then 0 else 10 * Value(s[..|s| - 1]) + (s[|s| - 1] as int - '0' as int)
  }

  /** str::parse::<u32>: an optional plus sign and at least one decimal digit, leading
      zeros allowed, below 2^32. */
  function ParseU32(s: string): Result<word> {
    var digits := if |s| > 1 && s[0] == '+' then s[1..] else s;
    if digits == [] || !AllDigits(digits) then Err
    else if Value(digits) >= TWO32 then Err
    else Ok(Value(digits))
  }

  // ---------- parse_bip32_path ----------

  predicate MarkedHardened(component: string) {
    component != [] && component[|component| - 1] in "'hH"
  }

  function ParseComponent(component: string): Result<word> {
    var hardened := MarkedHardened(component);
    var digits := if hardened then component[..|component| - 1] else component;
    match ParseU32(digits)
    case Err => Err
    case Ok(value) =>
      if !hardened then Ok(value)
      else if value + HARDENED >= TWO32 then Err
      else Ok(value + HARDENED)
  }

  function ParseAll(components: seq<string>): Result<seq<word>> {
    if components == [] then Ok([])
    else
      match ParseComponent(components[0])
      case Err => Err
      case Ok(v) =>
        match ParseAll(components[1..])
        case Err => Err
        case Ok(vs) => Ok([v] + vs)
  }

  function ParsePath(path: string): Result<seq<word>> {
    var trimmed := Trim(path);
    if trimmed == [] then Ok([])
    else
      var body := if "m/" <= trimmed then trimmed[2..] else trimmed;
      if body == [] then Ok([]) else ParseAll(Split(body, '/'))
  }

  // ---------- Canonical text ----------

  function DigitChar(d: nat): (ch: char)
    requires d < 10
    ensures IsDigit(ch) && ch as int - '0' as int == d
  {
    ('0' as int + d) as char
  }

  /** Decimal without leading zeros. */
  function Decimal(n: nat): (s: string)
    ensures s != [] && AllDigits(s)
  {
    if n < 10 then [DigitChar(n)] else Decimal(n / 10) + [DigitChar(n % 10)]
  }

  function Component(v: word): string {
    if v >= HARDENED then Decimal(v - HARDENED) + "'" else Decimal(v)
  }

  function Join(vs: seq<word>): string {
    if vs == [] then []
    else if |vs| == 1 then Component(vs[0])
    else Component(vs[0]) + "/" + Join(vs[1..])
  }

  function PathText(vs: seq<word>): string { "m/" + Join(vs) }

  // ---------- Round trip ----------

  lemma {:induction false} ValueOfDecimal(n: nat)
    ensures Value(Decimal(n)) == n
  {
    if n < 10 {
      assert Decimal(n)[..0] == [];
    } else {
      ValueOfDecimal(n / 10);
      var s := Decimal(n);
      assert s[..|s| - 1] == Decimal(n / 10);
    }
  }

  /** Characters that occur in canonical components. */
  predicate Plain(s: string) {
    forall i :: 0 <= i < |s| ==> IsDigit(s[i]) || s[i] == '\''
  }

  lemma {:induction false} ComponentRoundTrip(v: word)
    ensures ParseComponent(Component(v)) == Ok(v)
    ensures Plain(Component(v)) && Component(v) != []
  {
    var n := if v >= HARDENED then v - HARDENED else v;
    var d, s := Decimal(n), Component(v);
    ValueOfDecimal(n);
    hide Decimal, Value;
    assert IsDigit(d[0]) && IsDigit(d[|d| - 1]);
    if v >= HARDENED {
      assert s == d + "'" && s[..|s| - 1] == d && s[|s| - 1] == '\'';
    }
  }

  /** Splitting undoes joining when no piece contains the separator. */
  lemma {:induction false} SplitOne(s: string)
    requires Plain(s)
    ensures Split(s, '/') == [s]
  {
    if s != [] {
      SplitOne(s[1..]);
      SplitStep(s);
      assert [s[0]] + s[1..] == s;
    }
  }

  lemma {:induction false} SplitStep(s: string)
    requires s != [] && s[0] != '/'
    ensures var rest := Split(s[1..], '/'); Split(s, '/') == [[s[0]] + rest[0]] + rest[1..]
  {
  }

  lemma {:induction false} SplitFirst(s: string, rest: string)
    requires Plain(s)
    ensures Split(s + "/" + rest, '/') == [s] + Split(rest, '/')
    decreases |s|
  {
    var all := s + "/" + rest;
    if s == [] {
      assert all[0] == '/' && all[1..] == rest;
    } else {
      assert all[0] == s[0] && all[1..] == s[1..] + "/" + rest;
      SplitStep(all);
      SplitFirst(s[1..], rest);
      hide Split;
      var tail := [s[1..]] + Split(rest, '/');
      assert tail[0] == s[1..] && tail[1..] == Split(rest, '/');
      assert [s[0]] + s[1..] == s;
    }
  }

  lemma {:induction false} ParseFirst(component: string, v: word, rest: seq<string>, vs: seq<word>)
    requires ParseComponent(component) == Ok(v) && ParseAll(rest) == Ok(vs)
    ensures ParseAll([component] + rest) == Ok([v] + vs)
  {
    hide ParseComponent;
    var all := [component] + rest;
    assert all[0] == component && all[1..] == rest;
  }

  lemma {:induction false} JoinRoundTrip(vs: seq<word>)
    requires vs != []
    ensures ParseAll(Split(Join(vs), '/')) == Ok(vs)
    decreases |vs|
  {
    var v := vs[0];
    assert vs == [v] + vs[1..];
    if |vs| == 1 {
      ComponentRoundTrip(v);
      SplitOne(Component(v));
      hide Component, ParseComponent, Split;
      assert ParseAll([]) == Ok([]);
      ParseFirst(Component(v), v, [], []);
    } else {
      ComponentRoundTrip(v);
      JoinRoundTrip(vs[1..]);
      SplitFirst(Component(v), Join(vs[1..]));
      hide Component, ParseComponent, Split, ParseAll;
      ParseFirst(Component(v), v, Split(Join(vs[1..]), '/'), vs[1..]);
    }
  }

  lemma {:induction false} JoinEndsPlain(vs: seq<word>)
    requires vs != []
    ensures Join(vs) != [] && !IsWhitespace(Join(vs)[|Join(vs)| - 1])
    decreases |vs|
  {
    ComponentRoundTrip(vs[0]);
    hide Component, ParseComponent;
    if |vs| > 1 {
      JoinEndsPlain(vs[1..]);
      var front, back := Component(vs[0]) + "/", Join(vs[1..]);
      assert Join(vs) == front + back;
      assert (front + back)[|front + back| - 1] == back[|back| - 1];
    }
  }

  lemma {:induction false} NothingToTrim(s: string)
    requires s != [] && !IsWhitespace(s[0]) && !IsWhitespace(s[|s| - 1])
    ensures Trim(s) == s
  {
  }

  lemma {:induction false} ParseStripped(body: string)
    requires body != [] && !IsWhitespace(body[|body| - 1])
    ensures ParsePath("m/" + body) == ParseAll(Split(body, '/'))
  {
    hide Split, ParseAll;
    var text := "m/" + body;
    assert text[0] == 'm' && text[1] == '/' && text[2..] == body && text[|text| - 1] == body[|body| - 1];
    assert text[..2] == "m/";
    NothingToTrim(text);
  }

  /** Every list of 32-bit indices, written canonically, parses back to itself; hardened
      components never wrap. */
  lemma {:induction false} PathRoundTrip(vs: seq<word>)
    ensures ParsePath(PathText(vs)) == Ok(vs)
  {
    var text := PathText(vs);
    if vs == [] {
      assert text == "m/";
      NothingToTrim(text);
    } else {
      JoinEndsPlain(vs);
      JoinRoundTrip(vs);
      hide Join, Split, ParseAll;
      ParseStripped(Join(vs));
    }
  }

  // ---------- Every accepted spelling ----------

  /** An optional plus sign, digits, and an optional hardening mark. */
  predicate Spelling(s: string, plus: bool, digits: string, mark: string) {
    && digits != [] && AllDigits(digits)
    && mark in {"", "'", "h", "H"}
    && s == (if plus then "+" else "") + digits + mark
  }

  /** The index that a spelling stands for, when it is in range. */
  function Meaning(digits: string, mark: string): Result<word>
    requires AllDigits(digits)
  {
    var n := Value(digits);
    if mark == "" then (if n < 0x1_0000_0000 then Ok(n) else Err)
    else if n < 0x8000_0000 then Ok(n + 0x8000_0000) else Err
  }

  lemma {:induction false} ParseSigned(plus: bool, digits: string)
    requires digits != [] && AllDigits(digits)
    ensures ParseU32((if plus then "+" else "") + digits) == if Value(digits) < TWO32 then Ok(Value(digits)) else Err
  {
    hide Value;
    var s := (if plus then "+" else "") + digits;
    assert plus ==> s[0] == '+' && s[1..] == digits;
    assert !plus ==> s == digits && IsDigit(s[0]);
  }

  /** Digits are read in base ten, most significant first. */
  lemma {:induction false} ValueIsPositional(s: string, d: nat)
    requires AllDigits(s) && d < 10
    ensures var t := s + ["0123456789"[d]]; AllDigits(t) && Value(t) == 10 * Value(s) + d
    ensures Value([]) == 0
  {
    var t := s + ["0123456789"[d]];
    assert t[..|t| - 1] == s;
  }

  /** A component is accepted only in one of the spellings, with its meaning. */
  lemma {:induction false} ComponentMeaning(s: string, plus: bool, digits: string, mark: string)
    requires Spelling(s, plus, digits, mark)
    ensures ParseComponent(s) == Meaning(digits, mark)
  {
    hide Value, ParseU32;
    ParseSigned(plus, digits);
    var front := (if plus then "+" else "") + digits;
    assert front[|front| - 1] == digits[|digits| - 1];
    if mark == "" {
      assert s == front;
      Unmarked(front);
    } else {
      assert s == front + [mark[0]];
      Marked(front, mark[0]);
    }
  }

  lemma {:induction false} Unmarked(front: string)
    requires front != [] && IsDigit(front[|front| - 1])
    ensures ParseComponent(front) == ParseU32(front)
  {
    hide ParseU32;
  }

  lemma {:induction false} Marked(front: string, mark: char)
    requires mark in "'hH"
    ensures ParseComponent(front + [mark]) ==
      match ParseU32(front)
      case Err => Err
      case Ok(v) => if v < HARDENED then Ok(v + HARDENED) else Err
  {
    hide ParseU32;
    var s := front + [mark];
    assert s[..|s| - 1] == front && s[|s| - 1] == mark;
  }

  lemma {:induction false} AcceptedIsSpelling(s: string)
    requires ParseComponent(s).Ok?
    ensures exists plus: bool, digits: string, mark: string :: Spelling(s, plus, digits, mark)
  {
    hide Value;
    var marked := MarkedHardened(s);
    var front := if marked then s[..|s| - 1] else s;
    var mark := if marked then [s[|s| - 1]] else "";
    var plus := |front| > 1 && front[0] == '+';
    var digits := if plus then front[1..] else front;
    assert s == front + mark;
    assert plus ==> front == "+" + digits;
    assert s == (if plus then "+" else "") + digits + mark;
    assert Spelling(s, plus, digits, mark);
  }

  /** Surrounding white space and the `m/` prefix are optional. */
  lemma {:induction false} LenientPath(before: string, prefixed: bool, vs: seq<word>, after: string)
    requires vs != [] && AllBlank(before) && AllBlank(after)
    ensures ParsePath(before + (if prefixed then "m/" else "") + Join(vs) + after) == Ok(vs)
  {
    hide Join, Split, ParseAll, ParsePath, Trim, IsWhitespace, AllBlank;
    JoinEndsPlain(vs);
    JoinStartsPlain(vs);
    JoinRoundTrip(vs);
    var body, prefix := Join(vs), if prefixed then "m/" else "";
    OptionalPrefix(prefixed, body);
    TrimBlanks(before, prefix + body, after);
    Regroup(before, prefix, body, after);
    ParseTrimmed(before + prefix + body + after, prefix + body, body);
  }

  lemma {:induction false} ParseTrimmed(path: string, trimmed: string, body: string)
    requires Trim(path) == trimmed != [] && body != []
    requires body == if "m/" <= trimmed then trimmed[2..] else trimmed
    ensures ParsePath(path) == ParseAll(Split(body, '/'))
  {
    hide Split, ParseAll, Trim;
  }

  lemma {:induction false} Regroup(a: string, b: string, c: string, d: string)
    ensures a + b + c + d == a + (b + c) + d
  {
  }

  lemma {:induction false} OptionalPrefix(prefixed: bool, body: string)
    requires body != [] && !IsWhitespace(body[|body| - 1])
    requires prefixed || (!IsWhitespace(body[0]) && !("m/" <= body))
    ensures var text := (if prefixed then "m/" else "") + body;
            && text != [] && !IsWhitespace(text[0]) && !IsWhitespace(text[|text| - 1])
            && (if "m/" <= text then text[2..] else text) == body
  {
    if prefixed {
      var text := "m/" + body;
      assert text[..2] == "m/" && text[2..] == body && text[|text| - 1] == body[|body| - 1];
    } else {
      assert "" + body == body;
    }
  }

  predicate AllBlank(s: string) {
    forall i :: 0 <= i < |s| ==> IsWhitespace(s[i])
  }

  lemma {:induction false} JoinStartsPlain(vs: seq<word>)
    requires vs != []
    ensures Join(vs) != [] && !IsWhitespace(Join(vs)[0]) && Join(vs)[0] != 'm'
  {
    ComponentRoundTrip(vs[0]);
    hide Component, ParseComponent;
    assert Join(vs)[0] == Component(vs[0])[0];
  }

  lemma {:induction false} TrimBlanks(before: string, core: string, after: string)
    requires core != [] && !IsWhitespace(core[0]) && !IsWhitespace(core[|core| - 1])
    requires AllBlank(before) && AllBlank(after)
    ensures Trim(before + core + after) == core
  {
    TrimStartBlanks(before, core + after);
    assert before + core + after == before + (core + after);
    TrimEndBlanks(core, after);
  }

  lemma {:induction false} TrimStartBlanks(before: string, s: string)
    requires AllBlank(before) && s != [] && !IsWhitespace(s[0])
    ensures TrimStart(before + s) == s
    decreases |before|
  {
    if before == [] {
      assert before + s == s;
    } else {
      assert (before + s)[1..] == before[1..] + s;
      TrimStartBlanks(before[1..], s);
    }
  }

  lemma {:induction false} TrimEndBlanks(s: string, after: string)
    requires AllBlank(after) && s != [] && !IsWhitespace(s[|s| - 1])
    ensures TrimEnd(s + after) == s
    decreases |after|
  {
    if after == [] {
      assert s + after == s;
    } else {
      var n := |after| - 1;
      assert (s + after)[..|s + after| - 1] == s + after[..n];
      TrimEndBlanks(s, after[..n]);
    }
  }

  // ---------- Every path ----------

  /** A list of components parses exactly when each of them does, in order. */
  lemma {:induction false} ParseAllPieces(parts: seq<string>)
    ensures var parsed := ParseAll(parts);
            && (parsed.Ok? <==> forall i :: 0 <= i < |parts| ==> ParseComponent(parts[i]).Ok?)
            && (parsed.Ok? ==>
                  && |parsed.value| == |parts|
                  && forall i :: 0 <= i < |parts| ==> ParseComponent(parts[i]) == Ok(parsed.value[i]))
    decreases |parts|
  {
    hide ParseComponent;
    if parts != [] {
      var rest := parts[1..];
      ParseAllPieces(rest);
      assert forall i :: 1 <= i < |parts| ==> parts[i] == rest[i - 1];
      assert forall i :: 0 <= i < |rest| ==> rest[i] == parts[i + 1];
    }
  }

  /** Any text between optional white space and an optional `m/` parses exactly when each
      piece between slashes is a component; the indices are those of the pieces, in order. */
  lemma {:induction false} PathIsItsPieces(before: string, prefixed: bool, body: string, after: string)
    requires AllBlank(before) && AllBlank(after)
    requires body != [] && !IsWhitespace(body[|body| - 1])
    requires prefixed || (!IsWhitespace(body[0]) && !("m/" <= body))
    ensures var parsed := ParsePath(before + (if prefixed then "m/" else "") + body + after);
            var parts := Split(body, '/');
            && (parsed.Ok? <==> forall i :: 0 <= i < |parts| ==> ParseComponent(parts[i]).Ok?)
            && (parsed.Ok? ==>
                  && |parsed.value| == |parts|
                  && forall i :: 0 <= i < |parts| ==> ParseComponent(parts[i]) == Ok(parsed.value[i]))
  {
    hide Split, ParseAll, ParsePath, ParseComponent, Trim, IsWhitespace, AllBlank;
    var prefix := if prefixed then "m/" else "";
    OptionalPrefix(prefixed, body);
    TrimBlanks(before, prefix + body, after);
    Regroup(before, prefix, body, after);
    ParseTrimmed(before + prefix + body + after, prefix + body, body);
    ParseAllPieces(Split(body, '/'));
  }

  /** A path without components is the empty list of indices. */
  lemma {:induction false} EmptyPath(before: string, prefixed: bool, after: string)
    requires AllBlank(before) && AllBlank(after)
    ensures ParsePath(before + (if prefixed then "m/" else "") + after) == Ok([])
  {
    if prefixed {
      TrimBlanks(before, "m/", after);
      hide Trim;
      assert "m/"[2..] == [];
    } else {
      TrimOfBlank(before + after);
      assert before + "" + after == before + after;
      hide Trim;
    }
  }

  lemma {:induction false} TrimOfBlank(s: string)
    requires AllBlank(s)
    ensures Trim(s) == [] && TrimStart(s) == []
  {
    if s != [] {
      TrimOfBlank(s[1..]);
    }
  }

  /** The two lemmas above cover every path. */
  lemma {:induction false} EveryPath(path: string) returns (before: string, prefixed: bool, body: string, after: string)
    ensures path == before + (if prefixed then "m/" else "") + body + after
    ensures AllBlank(before) && AllBlank(after)
    ensures body != [] ==> !IsWhitespace(body[|body| - 1]) && (prefixed || (!IsWhitespace(body[0]) && !("m/" <= body)))
  {
    var core;
    before, core, after := TrimmedParts(path);
    hide IsWhitespace, AllBlank;
    prefixed := "m/" <= core;
    body := if prefixed then core[2..] else core;
    if prefixed {
      assert core == "m/" + body;
      assert body != [] ==> body[|body| - 1] == core[|core| - 1];
    } else {
      assert core == "" + body;
    }
    Regroup(before, if prefixed then "m/" else "", body, after);
  }

  /** A text is its core between white space. */
  lemma {:induction false} TrimmedParts(s: string) returns (before: string, core: string, after: string)
    ensures s == before + core + after && AllBlank(before) && AllBlank(after)
    ensures core != [] ==> !IsWhitespace(core[0]) && !IsWhitespace(core[|core| - 1])
    decreases |s|
  {
    hide IsWhitespace;
    if s != [] && IsWhitespace(s[0]) {
      before, core, after := TrimmedParts(s[1..]);
      Widen(s[0], before, core, after);
      before := [s[0]] + before;
      assert s == [s[0]] + s[1..];
    } else if s != [] && IsWhitespace(s[|s| - 1]) {
      var n := |s| - 1;
      before, core, after := TrimmedParts(s[..n]);
      Widen(s[n], before, core, after);
      after := after + [s[n]];
      assert s == s[..n] + [s[n]];
    } else {
      before, core, after := [], s, [];
    }
  }

  lemma {:induction false} Widen(ch: char, before: string, core: string, after: string)
    requires IsWhitespace(ch) && AllBlank(before) && AllBlank(after)
    ensures AllBlank([ch] + before) && AllBlank(after + [ch])
    ensures [ch] + (before + core + after) == [ch] + before + core + after
    ensures before + core + after + [ch] == before + core + (after + [ch])
  {
    hide IsWhitespace;
  }

  function Rejoin(parts: seq<string>, sep: char): string
    requires |parts| >= 1
  {
    if |parts| == 1 then parts[0] else parts[0] + [sep] + Rejoin(parts[1..], sep)
  }

  /** The pieces contain no separator, and put together with separators they are the text. */
  lemma {:induction false} SplitRejoins(s: string, sep: char)
    ensures Rejoin(Split(s, sep), sep) == s
    ensures forall i :: 0 <= i < |Split(s, sep)| ==> sep !in Split(s, sep)[i]
  {
    if s != [] {
      var rest := Split(s[1..], sep);
      SplitRejoins(s[1..], sep);
      hide Split, Rejoin;
      SplitUnfolds(s, sep);
      assert s == [s[0]] + s[1..];
      assert [] + [sep] == [sep];
      if s[0] == sep {
        RejoinCons([], rest, sep);
      } else {
        RejoinGrows(s[0], rest, sep);
      }
    }
  }

  lemma {:induction false} SplitUnfolds(s: string, sep: char)
    requires s != []
    ensures var rest := Split(s[1..], sep);
            Split(s, sep) == if s[0] == sep then [[]] + rest else [[s[0]] + rest[0]] + rest[1..]
  {
  }

  lemma {:induction false} RejoinCons(part: string, rest: seq<string>, sep: char)
    requires |rest| >= 1
    ensures Rejoin([part] + rest, sep) == part + [sep] + Rejoin(rest, sep)
  {
    assert ([part] + rest)[1..] == rest;
  }

  lemma {:induction false} RejoinGrows(ch: char, rest: seq<string>, sep: char)
    requires |rest| >= 1
    ensures Rejoin([[ch] + rest[0]] + rest[1..], sep) == [ch] + Rejoin(rest, sep)
  {
    var grown := [[ch] + rest[0]] + rest[1..];
    if |rest| == 1 {
      assert grown == [[ch] + rest[0]];
    } else {
      assert grown[1..] == rest[1..];
      assert [ch] + (rest[0] + [sep] + Rejoin(rest[1..], sep)) == [ch] + rest[0] + [sep] + Rejoin(rest[1..], sep);
    }
  }

  /** White space by its 25 code points. */
  lemma {:induction false} WhitespaceCodePoints(ch: char)
    ensures IsWhitespace(ch) <==> ch as int in {
      0x9, 0xA, 0xB, 0xC, 0xD, 0x20, 0x85, 0xA0, 0x1680, 0x2000, 0x2001, 0x2002, 0x2003, 0x2004, 0x2005, 0x2006,
      0x2007, 0x2008, 0x2009, 0x200A, 0x2028, 0x2029, 0x202F, 0x205F, 0x3000}
  {
  }

  // ---------- validate_bip86_path ----------

  datatype PathError = WrongLength | WrongPurpose | NotHardened | NotUnhardened | WrongChange

  datatype Validation = Valid | Invalid(error: PathError)

  function ValidateBip86(path: seq<word>): Validation {
    if |path| != BIP86_PATH_LEN then Invalid(WrongLength)
    else if path[0] != BIP86_PURPOSE then Invalid(WrongPurpose)
    else if path[1] < HARDENED || path[2] < HARDENED then Invalid(NotHardened)
    else if path[3] >= HARDENED || path[4] >= HARDENED then Invalid(NotUnhardened)
    else if path[3] > 1 then Invalid(WrongChange)
    else Valid
  }

  /** Each error names the first level that fails. */
  lemma {:induction false} Bip86Errors(path: seq<word>)
    ensures var v := ValidateBip86(path);
            if |path| != 5 then v == Invalid(WrongLength)
            else if path[0] != 86 + 0x8000_0000 then v == Invalid(WrongPurpose)
            else if !(path[1] >= 0x8000_0000 && path[2] >= 0x8000_0000) then v == Invalid(NotHardened)
            else if !(path[3] < 0x8000_0000 && path[4] < 0x8000_0000) then v == Invalid(NotUnhardened)
            else v == if path[3] in {0, 1} then Valid else Invalid(WrongChange)
  {
  }

  /** m / 86' / coin_type' / account' / change / address_index. */
  function Bip86Text(coin: nat, account: nat, change: nat, index: nat): string {
    "m/86'/" + Decimal(coin) + "'/" + Decimal(account) + "'/" + Decimal(change) + "/" + Decimal(index)
  }

  predicate Bip86Shape(text: string, coin: nat, account: nat, change: nat, index: nat) {
    && coin < 0x8000_0000 && account < 0x8000_0000 && change <= 1 && index < 0x8000_0000
    && text == Bip86Text(coin, account, change, index)
  }

  /** Of the canonical texts, exactly the BIP-86 shapes with change 0 or 1 are accepted. */
  lemma {:induction false} CanonicalBip86Texts(vs: seq<word>)
    ensures var parsed := ParsePath(PathText(vs));
            parsed.Ok? && (ValidateBip86(parsed.value).Valid?
              <==> exists coin: nat, account: nat, change: nat, index: nat :: Bip86Shape(PathText(vs), coin, account, change, index))
  {
    PathRoundTrip(vs);
    hide PathText, ParsePath, Bip86Text;
    if ValidateBip86(vs).Valid? {
      FiveLevels(vs);
      assert Bip86Shape(PathText(vs), vs[1] - HARDENED, vs[2] - HARDENED, vs[3], vs[4]);
    }
    if coin: nat, account: nat, change: nat, index: nat :| Bip86Shape(PathText(vs), coin, account, change, index) {
      var ws: seq<word> := [BIP86_PURPOSE, coin + HARDENED, account + HARDENED, change, index];
      FiveLevels(ws);
      PathRoundTrip(ws);
    }
  }

  /** The host's default path is accepted, and its text is the usual one. */
  lemma {:induction false} DefaultPath()
    ensures ParsePath("m/86'/0'/0'/0/0") == Ok([0x8000_0056, 0x8000_0000, 0x8000_0000, 0, 0])
    ensures ValidateBip86([0x8000_0056, 0x8000_0000, 0x8000_0000, 0, 0]).Valid?
  {
    hide ParsePath, PathText, Bip86Text, Decimal;
    var vs: seq<word> := [0x8000_0056, 0x8000_0000, 0x8000_0000, 0, 0];
    PathRoundTrip(vs);
    FiveLevels(vs);
    DefaultText();
  }

  lemma {:induction false} DefaultText()
    ensures Bip86Text(0, 0, 0, 0) == "m/86'/0'/0'/0/0"
  {
    assert Decimal(0) == "0";
    hide Decimal;
    assert "m/86'/" + "0" + "'/" == "m/86'/0'/";
    assert "m/86'/0'/" + "0" + "'/" == "m/86'/0'/0'/";
    assert "m/86'/0'/0'/" + "0" + "/" + "0" == "m/86'/0'/0'/0/0";
  }

  lemma {:induction false} JoinCons(v: word, vs: seq<word>)
    requires vs != []
    ensures Join([v] + vs) == Component(v) + "/" + Join(vs)
  {
    assert ([v] + vs)[1..] == vs;
  }

  lemma {:induction false} Purpose()
    ensures Component(BIP86_PURPOSE) == "86'"
  {
    assert Decimal(8) == "8" && Decimal(86) == Decimal(8) + "6";
  }

  lemma {:induction false} FiveLevels(vs: seq<word>)
    requires ValidateBip86(vs).Valid?
    ensures PathText(vs) == Bip86Text(vs[1] - HARDENED, vs[2] - HARDENED, vs[3], vs[4])
  {
    hide Decimal, Join, Component;
    Purpose();
    JoinFive(BIP86_PURPOSE, vs[1], vs[2], vs[3], vs[4]);
    FiveParts(vs);
    SplitComponents(vs[1], vs[2], vs[3], vs[4]);
    SameText(Decimal(vs[1] - HARDENED), Decimal(vs[2] - HARDENED), Decimal(vs[3]), Decimal(vs[4]));
  }

  lemma {:induction false} FiveParts(vs: seq<word>)
    requires |vs| == 5
    ensures vs == [vs[0]] + ([vs[1]] + ([vs[2]] + ([vs[3]] + [vs[4]])))
  {
  }

  lemma {:induction false} SplitComponents(a: word, b: word, c: word, d: word)
    requires a >= HARDENED && b >= HARDENED && c < HARDENED && d < HARDENED
    ensures Component(a) == Decimal(a - HARDENED) + "'" && Component(b) == Decimal(b - HARDENED) + "'"
    ensures Component(c) == Decimal(c) && Component(d) == Decimal(d)
  {
    hide Decimal;
  }

  lemma {:induction false} JoinFive(p: word, a: word, b: word, c: word, d: word)
    ensures Join([p] + ([a] + ([b] + ([c] + [d]))))
         == Component(p) + "/" + (Component(a) + "/" + (Component(b) + "/" + (Component(c) + "/" + Component(d))))
  {
    hide Component;
    LastComponent(d);
    hide Join;
    JoinCons(c, [d]);
    JoinCons(b, [c] + [d]);
    JoinCons(a, [b] + ([c] + [d]));
    JoinCons(p, [a] + ([b] + ([c] + [d])));
  }

  lemma {:induction false} LastComponent(d: word)
    ensures Join([d]) == Component(d)
  {
  }

  lemma {:induction false} SameText(a: string, b: string, c: string, d: string)
    ensures "m/" + ("86'" + "/" + (a + "'" + "/" + (b + "'" + "/" + (c + "/" + d))))
         == "m/86'/" + a + "'/" + b + "'/" + c + "/" + d
  {
  }
}
