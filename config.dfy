/**
 * The settings file of the plugin (src/Config.cpp): `ConfigLoad` reads it
 * line by line as `key value` pairs, `ConfigSave` writes it.  The file itself
 * is abstracted away: loading takes the lines `fgets` would return (each with
 * its line terminator, if any), or `None` when the file cannot be opened;
 * saving returns the lines written.
 */
module Config {
  import opened Util

  /** The value range of the C `long` on the plugin's platform (32 bits). */
  const LONG_MIN: int := -0x8000_0000
  const LONG_MAX: int := 0x7FFF_FFFF

  /**
   * `min_padding` is a `size_t`; assigning a `long` to it wraps. Its width
   * depends on the platform: the model takes the 64 bits of an x64 build.
   * Any width of at least 32 bits wraps a negative value above 256, so the
   * clamp gives 256 either way (`NegativeClampedAnyWidth`).
   */
  const SIZE_RANGE: int := 0x1_0000_0000_0000_0000

  const MAX_PADDING: nat := 256

  /** The settings `ConfigLoad` changes and `ConfigSave` writes. */
  datatype Settings = Settings(enabled: bool, extensions: Option<seq<char>>, minPadding: nat)

  /** `isspace` in the C locale. */
  predicate IsSpace(c: char)
  {
    c in {' ', '\t', '\n', '\U{000B}', '\U{000C}', '\r'}
  }

  predicate IsDigit(c: char)
  {
    '0' <= c <= '9'
  }

  predicate StartsWith(s: seq<char>, prefix: seq<char>)
  {
    |prefix| <= |s| && s[..|prefix|] == prefix
  }

  /** The first index at or after `i` that is not C-locale white space. */
  function SpaceEnd(s: seq<char>, i: nat): (r: nat)
    requires i <= |s|
    ensures i <= r <= |s|
    ensures forall k :: i <= k < r ==> IsSpace(s[k])
    ensures r == |s| || !IsSpace(s[r])
    decreases |s| - i
  {
    if i == |s| || !IsSpace(s[i]) then i else SpaceEnd(s, i + 1)
  }

  /** `strcspn(s, "\r\n")`: the length of the part before the first line terminator. */
  function LineLength(s: seq<char>): (r: nat)
    ensures r <= |s|
    ensures forall k :: 0 <= k < r ==> s[k] != '\r' && s[k] != '\n'
    ensures r == |s| || s[r] == '\r' || s[r] == '\n'
  {
    if s == [] || s[0] == '\r' || s[0] == '\n' then 0 else 1 + LineLength(s[1..])
  }

  /** The number of leading decimal digits of `s`. */
  function DigitsEnd(s: seq<char>): (r: nat)
    ensures r <= |s|
    ensures forall k :: 0 <= k < r ==> IsDigit(s[k])
    ensures r == |s| || !IsDigit(s[r])
  {
    if s == [] || !IsDigit(s[0]) then 0 else 1 + DigitsEnd(s[1..])
  }

  /** The value of a string of decimal digits. */
  function DigitsValue(d: seq<char>): nat
    requires forall k :: 0 <= k < |d| ==> IsDigit(d[k])
  {
    if d == [] then 0
    else
      var c := d[|d| - 1];
      assert IsDigit(c);
      10 * DigitsValue(d[..|d| - 1]) + (c as int - '0' as int)
  }

  /** Saturation of `strtol` at the range of `long`. */
  function Saturate(v: int): (r: int)
    ensures LONG_MIN <= r <= LONG_MAX
    ensures LONG_MIN <= v <= LONG_MAX ==> r == v
  {
    if v > LONG_MAX then LONG_MAX else if v < LONG_MIN then LONG_MIN else v
  }

  /**
   * `strtol(c, nullptr, 10)` on text that starts past any white space: an
   * optional sign and the longest run of digits after it; 0 when there are
   * no digits.
   */
  function StrToL(c: seq<char>): int
  {
    var neg := |c| > 0 && c[0] == '-';
    var body := if |c| > 0 && (c[0] == '-' || c[0] == '+') then c[1..] else c;
    var v: int := DigitsValue(body[..DigitsEnd(body)]);
    Saturate(if neg then -v else v)
  }

  /** Conversion of a `long` to `size_t`. */
  function SizeT(v: int): (r: nat)
    ensures r < SIZE_RANGE
    ensures 0 <= v < SIZE_RANGE ==> r == v
  {
    v % SIZE_RANGE
  }

  /** The two clamping statements after the `strtol` of the padding value. */
  function ClampPadding(p: nat): (r: nat)
    ensures 1 <= r <= MAX_PADDING
    ensures 1 <= p <= MAX_PADDING ==> r == p
    ensures p > MAX_PADDING ==> r == MAX_PADDING
    ensures p == 0 ==> r == 1
  {
    var q := if p > MAX_PADDING then MAX_PADDING else p;
    if q == 0 then 1 else q
  }

  /** A comment or blank line, which `ConfigLoad` skips. */
  predicate Skipped(line: seq<char>)
  {
    |line| > 0 && (line[0] == ';' || line[0] == '\r' || line[0] == '\n')
  }

  /** The effect of one line of the settings file, as the body of the `ConfigLoad` loop has it. */
  function ApplyLine(s: Settings, line: seq<char>): Settings
  {
    if Skipped(line) then s
    else if StartsWith(line, "enabled ") then
      s.(enabled := StartsWith(line[SpaceEnd(line, 8)..], "true"))
    else if StartsWith(line, "extensions ") then
      var v := line[..LineLength(line)];
      ExtensionsPrefix(line);
      var c := SpaceEnd(v, 11);
      if c == |v| || v[c] == '*' then s.(extensions := None) else s.(extensions := Some(v[c..]))
    else if StartsWith(line, "padding ") then
      s.(minPadding := ClampPadding(SizeT(StrToL(line[SpaceEnd(line, 8)..]))))
    else s
  }

  /** The key of an `extensions` line lies before its line terminator. */
  lemma ExtensionsPrefix(line: seq<char>)
    requires StartsWith(line, "extensions ")
    ensures 11 <= LineLength(line)
  {
  }

  /** A line that differs from `key` at index `i` does not start with `key`. */
  lemma OtherKey(line: seq<char>, key: seq<char>, i: nat)
    requires i < |line| && i < |key| && line[i] != key[i]
    ensures !StartsWith(line, key)
  {
    if |key| <= |line| {
      assert line[..|key|][i] == line[i];
    }
  }

  /** The settings after the loop of `ConfigLoad` has read `lines`. */
  function LoadLines(s: Settings, lines: seq<seq<char>>): Settings
  {
    if lines == [] then s else ApplyLine(LoadLines(s, lines[..|lines| - 1]), lines[|lines| - 1])
  }

  /** The decimal digits of `n`, most significant first. */
  function Decimal(n: nat): (d: seq<char>)
    ensures |d| > 0
    ensures forall k :: 0 <= k < |d| ==> IsDigit(d[k])
  {
    if n < 10 then [('0' as int + n) as char] else Decimal(n / 10) + [('0' as int + n % 10) as char]
  }

  /** The conversion `fprintf("%d")` applies to a `size_t`: its low 32 bits read as a signed `int`. */
  function AsInt(v: nat): (i: int)
    ensures LONG_MIN <= i <= LONG_MAX
    ensures v <= LONG_MAX ==> i == v
  {
    var x := v % 0x1_0000_0000;
    if x > LONG_MAX then x - 0x1_0000_0000 else x
  }

  /** `%d` of an `int`: a minus sign for negative values, then the decimal digits. */
  function IntText(i: int): seq<char>
  {
    if i < 0 then "-" + Decimal(-i) else Decimal(i)
  }

  /** `"true"` or `"false"`, as `ConfigSave` writes the flag. */
  function BoolText(b: bool): seq<char>
  {
    if b then "true" else "false"
  }

  /** `ConfigSave`'s extension list: the list itself, or `*` for all files. */
  function ExtensionsText(e: Option<seq<char>>): seq<char>
  {
    if e.Some? then e.value else "*"
  }

  /** A comment line of the settings file. */
  function Comment(text: seq<char>): seq<char>
  {
    ";" + text + "\n"
  }

  /** The comment lines `ConfigSave` writes before the `enabled` line. */
  const HEADER: seq<seq<char>> := [
    Comment(" Configuration for ElasticTabstops."),
    Comment(" Saving this file will immediately apply the settings."),
    "\n",
    Comment(" Whether elastic tabstops are enabled or not: true or false")]

  /** The blank and comment lines before the `extensions` line. */
  const EXTENSIONS_COMMENT: seq<seq<char>> := [
    "\n",
    Comment(" File extentions to apply elastic tabstops. For example..."),
    Comment("   \"extentions *\" will apply it to all files"),
    Comment("   \"extentions .c .h .cpp .hpp\" will apply it to C/C++ files")]

  /** The blank and comment lines before the `padding` line. */
  const PADDING_COMMENT: seq<seq<char>> := [
    "\n",
    Comment(" Minimum padding in characters. Must be > 0")]

  /** The lines `ConfigSave` writes, each with its newline. */
  function SavedLines(s: Settings): seq<seq<char>>
  {
    HEADER + ["enabled " + BoolText(s.enabled) + "\n"] +
    EXTENSIONS_COMMENT + ["extensions " + ExtensionsText(s.extensions) + "\n"] +
    PADDING_COMMENT + ["padding " + IntText(AsInt(s.minPadding)) + "\n"]
  }

  // Properties of one line

  /** Comment lines, blank lines and lines with an unknown key leave every setting as it was. */
  lemma IgnoredLine(s: Settings, line: seq<char>)
    requires Skipped(line) || (!StartsWith(line, "enabled ") && !StartsWith(line, "extensions ") && !StartsWith(line, "padding "))
    ensures ApplyLine(s, line) == s
  {
  }

  /** The spaces from index `i` up to index `k` of `line`. */
  predicate SpacesBetween(line: seq<char>, i: nat, k: nat)
  {
    i <= k <= |line| && forall j :: i <= j < k ==> IsSpace(line[j])
  }

  /** `true` written at index `k` of `line`. */
  predicate TrueAt(line: seq<char>, k: nat)
  {
    k + 4 <= |line| && line[k..k + 4] == "true"
  }

  /**
   * An `enabled` line sets only the flag, and sets it exactly when the key
   * and white space are followed by `true`.
   */
  lemma EnabledLine(s: Settings, line: seq<char>)
    requires StartsWith(line, "enabled ")
    ensures ApplyLine(s, line).extensions == s.extensions && ApplyLine(s, line).minPadding == s.minPadding
    ensures ApplyLine(s, line).enabled <==> exists k: nat :: SpacesBetween(line, 8, k) && TrueAt(line, k)
  {
    var e := SpaceEnd(line, 8);
    if ApplyLine(s, line).enabled {
      assert line[e..][..4] == line[e..e + 4];
      assert SpacesBetween(line, 8, e) && TrueAt(line, e);
    }
    if k: nat :| SpacesBetween(line, 8, k) && TrueAt(line, k) {
      assert line[k..k + 4][0] == line[k];
      assert k == e;
      assert line[e..][..4] == line[k..k + 4];
    }
  }

  /**
   * A `padding` line sets only the padding, always to a value in 1..256: the
   * number written when it is in that range, 256 above it, and 1 for zero
   * or text that is not a number.
   */
  lemma PaddingLine(s: Settings, line: seq<char>)
    requires StartsWith(line, "padding ")
    ensures ApplyLine(s, line).enabled == s.enabled && ApplyLine(s, line).extensions == s.extensions
    ensures 1 <= ApplyLine(s, line).minPadding <= MAX_PADDING
    ensures var n := StrToL(line[SpaceEnd(line, 8)..]);
      (1 <= n <= MAX_PADDING ==> ApplyLine(s, line).minPadding == n) &&
      (MAX_PADDING < n ==> ApplyLine(s, line).minPadding == MAX_PADDING) &&
      (n == 0 ==> ApplyLine(s, line).minPadding == 1)
  {
  }

  /** A negative padding wraps around as a `size_t` and so is clamped to 256, not to 1. */
  lemma NegativePadding(s: Settings, n: nat)
    requires 0 < n
    ensures ApplyLine(s, "padding -" + Decimal(n) + "\n").minPadding == MAX_PADDING
  {
    var d := Decimal(n);
    var tail := "-" + d + "\n";
    var line := "padding " + tail;
    assert line == "padding -" + d + "\n";
    KeyThen("padding ", tail);
    assert tail[0] == '-';
    assert SpaceEnd(line, 8) == 8;
    PaddingApply(s, line);
    NegDecimalRoundTrip(n, "\n");
    NegativeClamped(Saturate(-(n as int)));
  }

  /** A negative `long` stored in `size_t` is above the limit. */
  lemma NegativeClamped(v: int)
    requires LONG_MIN <= v < 0
    ensures ClampPadding(SizeT(v)) == MAX_PADDING
  {
    NegativeClampedAnyWidth(v, SIZE_RANGE);
  }

  /** A negative `long` stored in an unsigned type of `range` values, 2^32 or more, is above the limit. */
  lemma NegativeClampedAnyWidth(v: int, range: int)
    requires LONG_MIN <= v < 0 && range >= 0x1_0000_0000
    ensures v % range == v + range
    ensures ClampPadding(v % range) == MAX_PADDING
  {
    assert 0 <= v + range < range;
  }

  /** A padding of 300 is clamped to 256. */
  lemma PaddingAbove(s: Settings)
    ensures ApplyLine(s, "padding 300\n").minPadding == MAX_PADDING
  {
    var line := "padding 300\n";
    assert StartsWith(line, "padding ");
    PaddingKey(line);
    assert SpaceEnd(line, 8) == 8;
    assert Decimal(3) == "3";
    assert Decimal(30) == "30";
    assert line[8..] == Decimal(300) + "\n";
    DecimalRoundTrip(300, "\n");
  }

  /** A padding of 0 becomes 1. */
  lemma PaddingZero(s: Settings)
    ensures ApplyLine(s, "padding 0\n").minPadding == 1
  {
    var line := "padding 0\n";
    assert StartsWith(line, "padding ");
    PaddingKey(line);
    assert SpaceEnd(line, 8) == 8;
    assert line[8..] == Decimal(0) + "\n";
    DecimalRoundTrip(0, "\n");
  }

  /** The padding a line `padding <n>` sets. */
  lemma PaddingOf(s: Settings, n: nat)
    ensures ApplyLine(s, "padding " + Decimal(n) + "\n").minPadding == ClampPadding(Saturate(n))
  {
    var d := Decimal(n);
    var tail := d + "\n";
    var line := "padding " + tail;
    assert line == "padding " + d + "\n";
    KeyThen("padding ", tail);
    assert tail[0] == d[0];
    assert SpaceEnd(line, 8) == 8;
    PaddingApply(s, line);
    DecimalRoundTrip(n, "\n");
  }

  /** A line made of `key` and then `tail` starts with `key`, and `tail` follows it. */
  lemma KeyThen(key: seq<char>, tail: seq<char>)
    ensures StartsWith(key + tail, key) && (key + tail)[|key|..] == tail
    ensures |tail| > 0 ==> (key + tail)[|key|] == tail[0]
  {
    assert (key + tail)[..|key|] == key;
  }

  /** A `padding` line sets the padding to the clamped number after the key. */
  lemma PaddingApply(s: Settings, line: seq<char>)
    requires StartsWith(line, "padding ")
    ensures ApplyLine(s, line) == s.(minPadding := ClampPadding(SizeT(StrToL(line[SpaceEnd(line, 8)..]))))
  {
    PaddingKey(line);
  }

  /**
   * An `extensions` line sets only the extension list: to none (all files)
   * when its value is empty or starts with `*`, else to the value, which
   * then starts with neither white space nor `*` and holds no line
   * terminator.  The result does not depend on the list before.
   */
  lemma ExtensionsLine(s: Settings, t: Settings, line: seq<char>)
    requires StartsWith(line, "extensions ")
    ensures ApplyLine(s, line).enabled == s.enabled && ApplyLine(s, line).minPadding == s.minPadding
    ensures ApplyLine(s, line).extensions == ApplyLine(t, line).extensions
    ensures ApplyLine(s, line).extensions.Some? ==>
      var v := ApplyLine(s, line).extensions.value;
      |v| > 0 && !IsSpace(v[0]) && v[0] != '*' && (forall k :: 0 <= k < |v| ==> v[k] != '\r' && v[k] != '\n')
  {
    var v := line[..LineLength(line)];
    ExtensionsPrefix(line);
    var c := SpaceEnd(v, 11);
    if c < |v| && v[c] != '*' {
      var x := v[c..];
      assert x[0] == v[c];
      forall k | 0 <= k < |x|
        ensures x[k] != '\r' && x[k] != '\n'
      {
        assert x[k] == line[c + k];
      }
    }
  }

  /**
   * The value an `extensions` line sets: with `k` the end of the white space
   * after the key, no list when the line ends there or the value starts
   * with `*`, else the rest of the line up to its terminator.
   */
  lemma ExtensionsValue(s: Settings, line: seq<char>, k: nat)
    requires StartsWith(line, "extensions ")
    requires SpacesBetween(line, 11, k) && k <= LineLength(line)
    requires k == LineLength(line) || !IsSpace(line[k])
    ensures ApplyLine(s, line).extensions ==
      if k == LineLength(line) || line[k] == '*' then None else Some(line[k..LineLength(line)])
  {
    ExtensionsPrefix(line);
    ExtensionsKey(line);
    var v := line[..LineLength(line)];
    var c := SpaceEnd(v, 11);
    assert k == c;
    if k < |v| {
      assert v[k] == line[k];
      assert v[k..] == line[k..LineLength(line)];
    }
  }

  /** The value of the last `extensions` line is the one that holds after loading. */
  lemma {:induction false} LastExtensionsLineWins(s: Settings, lines: seq<seq<char>>, i: nat)
    requires i < |lines| && StartsWith(lines[i], "extensions ")
    requires forall j :: i < j < |lines| ==> !StartsWith(lines[j], "extensions ")
    ensures LoadLines(s, lines).extensions == ApplyLine(s, lines[i]).extensions
    decreases |lines|
  {
    var init := lines[..|lines| - 1];
    if i == |lines| - 1 {
      ExtensionsLine(LoadLines(s, init), s, lines[i]);
    } else {
      assert init[i] == lines[i];
      LastExtensionsLineWins(s, init, i);
      var last := lines[|lines| - 1];
      assert !StartsWith(last, "extensions ");
    }
  }

  // Writing a number and reading it back

  lemma {:induction false} DigitsEndAppend(d: seq<char>, rest: seq<char>)
    requires forall k :: 0 <= k < |d| ==> IsDigit(d[k])
    requires rest == [] || !IsDigit(rest[0])
    ensures DigitsEnd(d + rest) == |d|
    decreases |d|
  {
    if d != [] {
      assert (d + rest)[1..] == d[1..] + rest;
      DigitsEndAppend(d[1..], rest);
    }
  }

  lemma {:induction false} DecimalValue(n: nat)
    ensures DigitsValue(Decimal(n)) == n
  {
    if n >= 10 {
      DecimalValue(n / 10);
      var d := Decimal(n);
      assert d[..|d| - 1] == Decimal(n / 10);
    }
  }

  /** `strtol` reads back what `Decimal` writes, up to the first non-digit. */
  lemma DecimalRoundTrip(n: nat, rest: seq<char>)
    requires rest == [] || !IsDigit(rest[0])
    ensures StrToL(Decimal(n) + rest) == Saturate(n)
  {
    var d := Decimal(n);
    var c := d + rest;
    assert c[0] == d[0];
    DigitsEndAppend(d, rest);
    assert c[..|d|] == d;
    DecimalValue(n);
  }

  /** `strtol` reads back a minus sign and the digits of `n` as `-n`, saturated. */
  lemma NegDecimalRoundTrip(n: nat, rest: seq<char>)
    requires rest == [] || !IsDigit(rest[0])
    ensures StrToL("-" + Decimal(n) + rest) == Saturate(-(n as int))
  {
    var d := Decimal(n);
    var c := "-" + d + rest;
    assert c[0] == '-';
    assert c[1..] == d + rest;
    DigitsEndAppend(d, rest);
    assert (d + rest)[..|d|] == d;
    DecimalValue(n);
  }

  /** A text with no line terminator, followed by one newline. */
  lemma {:induction false} LineLengthOfLine(p: seq<char>)
    requires forall k :: 0 <= k < |p| ==> p[k] != '\r' && p[k] != '\n'
    ensures LineLength(p + "\n") == |p|
    decreases |p|
  {
    if p != [] {
      assert (p + "\n")[1..] == p[1..] + "\n";
      LineLengthOfLine(p[1..]);
    }
  }

  // Saving and loading

  /** An extension list `ConfigSave` writes so that `ConfigLoad` reads it back. */
  predicate SavableExtensions(e: Option<seq<char>>)
  {
    e.Some? ==>
      |e.value| > 0 && !IsSpace(e.value[0]) && e.value[0] != '*' &&
      forall k :: 0 <= k < |e.value| ==> e.value[k] != '\r' && e.value[k] != '\n'
  }

  /** Loading two runs of lines one after the other. */
  lemma {:induction false} LoadLinesAppend(s: Settings, a: seq<seq<char>>, b: seq<seq<char>>)
    ensures LoadLines(s, a + b) == LoadLines(LoadLines(s, a), b)
    decreases |b|
  {
    if b == [] {
      assert a + b == a;
    } else {
      assert (a + b)[..|a + b| - 1] == a + b[..|b| - 1];
      LoadLinesAppend(s, a, b[..|b| - 1]);
    }
  }

  /** Comment and blank lines leave the settings as they were. */
  lemma {:induction false} LoadComments(s: Settings, lines: seq<seq<char>>)
    requires forall k :: 0 <= k < |lines| ==> Skipped(lines[k])
    ensures LoadLines(s, lines) == s
    decreases |lines|
  {
    if lines != [] {
      LoadComments(s, lines[..|lines| - 1]);
    }
  }

  lemma CommentSkipped(text: seq<char>)
    ensures Skipped(Comment(text))
  {
    assert Comment(text)[0] == ';';
  }

  lemma HeaderSkipped()
    ensures forall k :: 0 <= k < |HEADER| ==> Skipped(HEADER[k])
  {
    CommentSkipped(" Configuration for ElasticTabstops.");
    CommentSkipped(" Saving this file will immediately apply the settings.");
    CommentSkipped(" Whether elastic tabstops are enabled or not: true or false");
  }

  lemma ExtensionsCommentSkipped()
    ensures forall k :: 0 <= k < |EXTENSIONS_COMMENT| ==> Skipped(EXTENSIONS_COMMENT[k])
  {
    CommentSkipped(" File extentions to apply elastic tabstops. For example...");
    CommentSkipped("   \"extentions *\" will apply it to all files");
    CommentSkipped("   \"extentions .c .h .cpp .hpp\" will apply it to C/C++ files");
  }

  lemma PaddingCommentSkipped()
    ensures forall k :: 0 <= k < |PADDING_COMMENT| ==> Skipped(PADDING_COMMENT[k])
  {
    CommentSkipped(" Minimum padding in characters. Must be > 0");
  }

  /** The settings `ConfigLoad` can leave: a padding in 1..256 and an extension list `ConfigSave` can write back. */
  predicate Loadable(s: Settings)
  {
    1 <= s.minPadding <= MAX_PADDING && SavableExtensions(s.extensions)
  }

  /** Every line keeps the settings loadable. */
  lemma ApplyLineLoadable(s: Settings, line: seq<char>)
    requires Loadable(s)
    ensures Loadable(ApplyLine(s, line))
  {
    if !Skipped(line) && !StartsWith(line, "enabled ") {
      if StartsWith(line, "extensions ") {
        ExtensionsLine(s, s, line);
      } else if StartsWith(line, "padding ") {
        PaddingLine(s, line);
      }
    }
  }

  /** Loading keeps the settings loadable, and the initial settings of src/Main.cpp are. */
  lemma {:induction false} LoadLinesLoadable(s: Settings, lines: seq<seq<char>>)
    requires Loadable(s)
    ensures Loadable(LoadLines(s, lines))
    ensures Loadable(Settings(true, None, 1))
    decreases |lines|
  {
    if lines != [] {
      LoadLinesLoadable(s, lines[..|lines| - 1]);
      ApplyLineLoadable(LoadLines(s, lines[..|lines| - 1]), lines[|lines| - 1]);
    }
  }

  /**
   * Loading what `ConfigSave` writes gives back the saved settings, whatever
   * they were before, for all settings `ConfigLoad` can leave.
   */
  lemma SaveLoad(c: Settings, s: Settings)
    requires Loadable(c)
    ensures LoadLines(s, SavedLines(c)) == c
  {
    var e := ["enabled " + BoolText(c.enabled) + "\n"];
    var x := ["extensions " + ExtensionsText(c.extensions) + "\n"];
    var p := ["padding " + IntText(AsInt(c.minPadding)) + "\n"];
    LoadLinesAppend(s, HEADER + e + EXTENSIONS_COMMENT + x + PADDING_COMMENT, p);
    LoadLinesAppend(s, HEADER + e + EXTENSIONS_COMMENT + x, PADDING_COMMENT);
    LoadLinesAppend(s, HEADER + e + EXTENSIONS_COMMENT, x);
    LoadLinesAppend(s, HEADER + e, EXTENSIONS_COMMENT);
    LoadLinesAppend(s, HEADER, e);
    HeaderSkipped();
    LoadComments(s, HEADER);
    var s1 := LoadLines(s, HEADER + e);
    EnabledStep(s, c.enabled);
    assert LoadLines(s, e) == ApplyLine(s, e[0]);
    ExtensionsCommentSkipped();
    LoadComments(s1, EXTENSIONS_COMMENT);
    var s2 := LoadLines(s, HEADER + e + EXTENSIONS_COMMENT + x);
    ExtensionsStep(s1, c.extensions);
    assert LoadLines(s1, x) == ApplyLine(s1, x[0]);
    PaddingCommentSkipped();
    LoadComments(s2, PADDING_COMMENT);
    PaddingStep(s2, c.minPadding);
    assert LoadLines(s2, p) == ApplyLine(s2, p[0]);
  }

  lemma EnabledStep(s: Settings, b: bool)
    ensures ApplyLine(s, "enabled " + BoolText(b) + "\n") == s.(enabled := b)
  {
    var line := "enabled " + BoolText(b) + "\n";
    assert SpaceEnd(line, 8) == 8;
    assert line[8..][..4] == if b then "true" else "fals";
  }

  lemma ExtensionsStep(s: Settings, e: Option<seq<char>>)
    requires SavableExtensions(e)
    ensures ApplyLine(s, "extensions " + ExtensionsText(e) + "\n") == s.(extensions := e)
  {
    var v := ExtensionsText(e);
    var p := "extensions " + v;
    var line := p + "\n";
    assert StartsWith(line, "extensions ");
    ExtensionsKey(line);
    ExtensionsPrefix(line);
    var r := LineLength(line);
    assert line[11 + |v|] == '\n';
    forall k | 11 <= k < 11 + |v|
      ensures line[k] != '\r' && line[k] != '\n'
    {
      assert line[k] == v[k - 11];
    }
    assert r == 11 + |v|;
    assert line[..r] == p;
    assert p[11] == v[0];
    assert SpaceEnd(p, 11) == 11;
    assert p[11..] == v;
  }

  /** A line that starts with `extensions ` is read as an extensions line. */
  lemma ExtensionsKey(line: seq<char>)
    requires StartsWith(line, "extensions ")
    ensures !Skipped(line) && !StartsWith(line, "enabled ")
  {
    assert line[1] == 'x';
    OtherKey(line, "enabled ", 1);
  }


  /** A line that starts with `padding ` is read as a padding line. */
  lemma PaddingKey(line: seq<char>)
    requires StartsWith(line, "padding ")
    ensures !Skipped(line) && !StartsWith(line, "enabled ") && !StartsWith(line, "extensions ")
  {
    assert line[0] == 'p';
    OtherKey(line, "enabled ", 0);
    OtherKey(line, "extensions ", 0);
  }

  lemma PaddingStep(s: Settings, n: nat)
    requires 1 <= n <= MAX_PADDING
    ensures ApplyLine(s, "padding " + IntText(AsInt(n)) + "\n") == s.(minPadding := n)
  {
    assert IntText(AsInt(n)) == Decimal(n);
    PaddingOf(s, n);
    PaddingKey("padding " + Decimal(n) + "\n");
  }


  /**
   * The plugin's settings, as the `Configuration` record `config` of
   * src/Main.cpp that `ConfigLoad` fills in and `ConfigSave` writes.
   */
  class Configuration {
    var enabled: bool
    var fileExtensions: Option<seq<char>>
    var minPadding: nat

    function Value(): Settings
      reads this
    {
      Settings(enabled, fileExtensions, minPadding)
    }

    /** The initial value `{ true, nullptr, 1}` of src/Main.cpp. */
    constructor ()
      ensures Value() == Settings(true, None, 1)
    {
      enabled, fileExtensions, minPadding := true, None, 1;
    }

    /** One pass of the `ConfigLoad` loop. */
    method LoadLine(line: seq<char>)
      modifies this
      ensures Value() == ApplyLine(old(Value()), line)
    {
      if Skipped(line) {
        return;
      }
      if StartsWith(line, "enabled ") {
        var c := SkipSpaces(line, 8);
        enabled := StartsWith(line[c..], "true");
      } else if StartsWith(line, "extensions ") {
        fileExtensions := None;
        var v := line[..LineLength(line)];
        ExtensionsPrefix(line);
        var c := SkipSpaces(v, 11);
        if c == |v| || v[c] == '*' {
          return;
        }
        fileExtensions := Some(v[c..]);
      } else if StartsWith(line, "padding ") {
        var c := SkipSpaces(line, 8);
        minPadding := SizeT(StrToL(line[c..]));
        if minPadding > MAX_PADDING {
          minPadding := MAX_PADDING;
        }
        if minPadding == 0 {
          minPadding := 1;
        }
      }
    }

    /** `ConfigLoad`: nothing when the file cannot be opened, else every line in order. */
    method Load(file: Option<seq<seq<char>>>)
      modifies this
      ensures file.None? ==> Value() == old(Value())
      ensures file.Some? ==> Value() == LoadLines(old(Value()), file.value)
    {
      if file.None? {
        return;
      }
      var lines := file.value;
      var i := 0;
      while i < |lines|
        invariant 0 <= i <= |lines|
        invariant Value() == LoadLines(old(Value()), lines[..i])
      {
        assert lines[..i + 1][..i] == lines[..i];
        LoadLine(lines[i]);
        i := i + 1;
      }
      assert lines[..i] == lines;
    }
  }

  /** The skip over C-locale white space from index `i` of `s`, a character at a time. */
  method SkipSpaces(s: seq<char>, i: nat) returns (j: nat)
    requires i <= |s|
    ensures j == SpaceEnd(s, i)
  {
    j := i;
    while j < |s| && IsSpace(s[j])
      invariant i <= j <= |s|
      invariant SpaceEnd(s, j) == SpaceEnd(s, i)
    {
      j := j + 1;
    }
  }
}
