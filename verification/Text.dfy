/** Characters and strings as the repository reads them: ASCII case, hex digits, decimal digits and whitespace. */
module Text {

  /** Where a value may be absent. */
  datatype Option<+T> = None | Some(value: T) {
    function GetOr(default: T): T {
      if Some? then value else default
    }
  }

  /** ASCII upper-casing: SQLite's `upper`, and Python's `str.upper` on hex digits. */
  function UpperChar(c: char): char {
    if 'a' <= c <= 'z' then (c as int - 32) as char else c
  }

  function Upper(s: string): string {
    seq(|s|, i requires 0 <= i < |s| => UpperChar(s[i]))
  }

  function LowerChar(c: char): char {
    if 'A' <= c <= 'Z' then (c as int + 32) as char else c
  }

  function Lower(s: string): string {
    seq(|s|, i requires 0 <= i < |s| => LowerChar(s[i]))
  }

  predicate IsDigit(c: char) {
    '0' <= c <= '9'
  }

  predicate AllDigits(s: string) {
    forall i | 0 <= i < |s| :: IsDigit(s[i])
  }

  predicate IsHexChar(c: char) {
    IsDigit(c) || 'A' <= c <= 'F' || 'a' <= c <= 'f'
  }

  predicate AllHex(s: string) {
    forall i | 0 <= i < |s| :: IsHexChar(s[i])
  }

  /** `re.compile(r"[0-9A-Fa-f]{64}").fullmatch(s)` */
  predicate IsHex64(s: string) {
    |s| == 64 && AllHex(s)
  }

  predicate IsSpace(c: char) {
    c == ' ' || '\t' <= c <= '\r' || 28 as char <= c <= 31 as char
  }

  function LeftStrip(s: string): string {
    if s != [] && IsSpace(s[0]) then LeftStrip(s[1..]) else s
  }

  function RightStrip(s: string): string {
    if s != [] && IsSpace(s[|s| - 1]) then RightStrip(s[..|s| - 1]) else s
  }

  /** `str.strip()` */
  function Strip(s: string): string {
    RightStrip(LeftStrip(s))
  }

  /** Index of the first `c` in `s`, or `|s|`. */
  function Find(s: string, c: char): (i: nat)
    ensures i <= |s|
    ensures forall j | 0 <= j < i :: s[j] != c
    ensures i < |s| ==> s[i] == c
  {
    if s == [] || s[0] == c then 0 else 1 + Find(s[1..], c)
  }

  lemma UpperKeepsHex(s: string)
    ensures AllHex(Upper(s)) <==> AllHex(s)
    ensures Upper(Upper(s)) == Upper(s)
  {
    forall i | 0 <= i < |s| ensures IsHexChar(UpperChar(s[i])) <==> IsHexChar(s[i]) {}
    if AllHex(Upper(s)) {
      forall i | 0 <= i < |s| ensures IsHexChar(s[i]) {
        assert IsHexChar(Upper(s)[i]);
      }
    }
  }

  // ------------------------------------------------------------------ character by character

  const LOWERS := "abcdefghijklmnopqrstuvwxyz"
  const UPPERS := "ABCDEFGHIJKLMNOPQRSTUVWXYZ"

  /** Changing case exchanges the two alphabets, letter for letter, and leaves every other character alone. */
  lemma CaseExact(s: string, i: nat)
    requires i < |s|
    ensures |Upper(s)| == |Lower(s)| == |s|
    ensures forall k | 0 <= k < 26 :: s[i] == LOWERS[k] ==> Upper(s)[i] == UPPERS[k] && Lower(s)[i] == LOWERS[k]
    ensures forall k | 0 <= k < 26 :: s[i] == UPPERS[k] ==> Lower(s)[i] == LOWERS[k] && Upper(s)[i] == UPPERS[k]
    ensures s[i] !in LOWERS + UPPERS ==> Upper(s)[i] == Lower(s)[i] == s[i]
  {
    forall k | 0 <= k < 26 ensures LOWERS[k] == ('a' as int + k) as char && UPPERS[k] == ('A' as int + k) as char {
      Letter(k);
    }
    var c := s[i];
    if 'a' <= c <= 'z' {
      assert c == LOWERS[c as int - 'a' as int];
    } else if 'A' <= c <= 'Z' {
      assert c == UPPERS[c as int - 'A' as int];
    }
  }

  lemma Letter(k: nat)
    requires k < 26
    ensures LOWERS[k] == ('a' as int + k) as char && UPPERS[k] == ('A' as int + k) as char
  {
    if k < 13 {
      assert LOWERS[..13] == "abcdefghijklm" && UPPERS[..13] == "ABCDEFGHIJKLM";
      assert LOWERS[k] == LOWERS[..13][k] && UPPERS[k] == UPPERS[..13][k];
    } else {
      assert LOWERS[13..] == "nopqrstuvwxyz" && UPPERS[13..] == "NOPQRSTUVWXYZ";
      assert LOWERS[k] == LOWERS[13..][k - 13] && UPPERS[k] == UPPERS[13..][k - 13];
    }
  }

  /** The character classes, spelt out. */
  lemma ClassesExact(c: char)
    ensures IsDigit(c) <==> c in "0123456789"
    ensures IsHexChar(c) <==> c in "0123456789abcdefABCDEF"
    ensures IsSpace(c) <==> c in " \t\n\U{b}\U{c}\r\U{1c}\U{1d}\U{1e}\U{1f}"
  {
    if IsDigit(c) {
      assert c == "0123456789"[c as int - '0' as int];
    } else if IsHexChar(c) {
      if c <= 'F' {
        assert c == "0123456789abcdefABCDEF"[c as int - 'A' as int + 16];
      } else {
        assert c == "0123456789abcdefABCDEF"[c as int - 'a' as int + 10];
      }
    }
    var spaces := " \t\n\U{b}\U{c}\r\U{1c}\U{1d}\U{1e}\U{1f}";
    if IsSpace(c) {
      assert c == ' ' || c in "\t\n\U{b}\U{c}\r" || c in "\U{1c}\U{1d}\U{1e}\U{1f}" by {
        SpaceCases(c);
      }
      assert spaces == " " + "\t\n\U{b}\U{c}\r" + "\U{1c}\U{1d}\U{1e}\U{1f}";
    }
  }

  lemma SpaceCases(c: char)
    requires IsSpace(c)
    ensures c == ' ' || c in "\t\n\U{b}\U{c}\r" || c in "\U{1c}\U{1d}\U{1e}\U{1f}"
  {
    if '\t' <= c <= '\r' {
      assert c == "\t\n\U{b}\U{c}\r"[c as int - 9];
    } else if c != ' ' {
      assert c == "\U{1c}\U{1d}\U{1e}\U{1f}"[c as int - 28];
    }
  }

  predicate AllSpace(s: string) {
    forall i | 0 <= i < |s| :: IsSpace(s[i])
  }

  /** Stripping takes off exactly the blanks at the two ends. */
  lemma {:induction false} StripExact(before: string, core: string, after: string)
    requires AllSpace(before) && AllSpace(after)
    requires core != "" ==> !IsSpace(core[0]) && !IsSpace(core[|core| - 1])
    ensures Strip(before + core + after) == core
    decreases |before| + |after|
  {
    if before != "" {
      assert (before + core + after)[1..] == before[1..] + core + after;
      StripExact(before[1..], core, after);
    } else if after != "" {
      var s := before + core + after;
      if core == "" {
        assert s[1..] == before + core + after[1..];
        StripExact(before, core, after[1..]);
      } else {
        assert LeftStrip(s) == s;
        assert s[..|s| - 1] == before + core + after[..|after| - 1];
        StripExact(before, core, after[..|after| - 1]);
        assert LeftStrip(s[..|s| - 1]) == s[..|s| - 1];
      }
    } else {
      assert before + core + after == core;
    }
  }

  /** Every string is of that form. */
  lemma {:induction false} StripSplits(s: string) returns (before: string, after: string)
    ensures s == before + Strip(s) + after && AllSpace(before) && AllSpace(after)
    ensures Strip(s) != "" ==> !IsSpace(Strip(s)[0]) && !IsSpace(Strip(s)[|Strip(s)| - 1])
  {
    before, after := "", "";
    if s == "" {
    } else if IsSpace(s[0]) {
      before, after := StripSplits(s[1..]);
      before := [s[0]] + before;
      assert s == [s[0]] + s[1..];
    } else if IsSpace(s[|s| - 1]) {
      var init := s[..|s| - 1];
      before, after := StripSplits(init);
      assert LeftStrip(s) == s && LeftStrip(init) == init;
      after := after + [s[|s| - 1]];
      assert s == init + [s[|s| - 1]];
    }
  }

  /** The word "true" in some case. */
  predicate SaysTrue(t: string) {
    |t| == 4 && t[0] in "tT" && t[1] in "rR" && t[2] in "uU" && t[3] in "eE"
  }

  lemma LowerTrueExact(t: string)
    ensures Lower(t) == "true" <==> SaysTrue(t)
  {
    if |t| == 4 {
      assert Lower(t) == [LowerChar(t[0]), LowerChar(t[1]), LowerChar(t[2]), LowerChar(t[3])];
    }
  }
}
