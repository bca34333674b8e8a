/** The spend gate's policy file (`parse_policy` of `examples/spend_policy.py`). */
module PolicyText {
  import opened Text
  import opened Bytes
  import opened Decimals
  import opened Units
  import opened Addresses
  import opened SpendPolicy

  // ------------------------------------------------------------------ one line

  /** `line.split("#", 1)[0].strip()` */
  function Uncommented(line: string): string {
    Strip(line[..Find(line, '#')])
  }

  /** Length of the leading run of characters that are not blank. */
  function WordLength(s: string): (n: nat)
    ensures n <= |s|
  {
    if s == "" || IsSpace(s[0]) then 0 else 1 + WordLength(s[1..])
  }

  /** `line.split()` */
  function Words(s: string): seq<string>
    decreases |s|
  {
    if s == "" then []
    else if IsSpace(s[0]) then Words(s[1..])
    else [s[..WordLength(s)]] + Words(s[WordLength(s)..])
  }

  /** `value.replace(".", "", 1).isdigit()` */
  predicate IsPlainDecimal(value: string) {
    var dot := Find(value, '.');
    var rest := if dot < |value| then value[..dot] + value[dot + 1..] else value;
    rest != "" && AllDigits(rest)
  }

  /** The positive amount a cap line names; None is a refusal. */
  function CapOf(value: string): Option<nat> {
    if !IsPlainDecimal(value) then None else
      match NanoToRaw(value)
      case None => None
      case Some(raw) => if raw == 0 then None else Some(raw)
  }

  /** What one line says. */
  datatype Entry = Blank | PerCall(raw: nat) | Daily(raw: nat) | Allow(key: Bytes32) | Bad

  function EntryOf(blake: Blake40, line: string): Entry {
    var text := Uncommented(line);
    var parts := Words(text);
    if text == "" then Blank
    else if |parts| != 2 then Bad
    else if parts[0] == "per_call_max_xno" then
      match CapOf(parts[1])
      case None => Bad
      case Some(raw) => PerCall(raw)
    else if parts[0] == "daily_max_xno" then
      match CapOf(parts[1])
      case None => Bad
      case Some(raw) => Daily(raw)
    else if parts[0] == "allow" then
      match PublicKeyFromAddress(blake, parts[1])
      case None => Bad
      case Some(key) => Allow(key)
    else Bad
  }

  // ------------------------------------------------------------------ the file

  /** What the loop has gathered. */
  datatype Draft = Draft(perCall: Option<nat>, daily: Option<nat>, allow: seq<Bytes32>)

  /** One line; None is PolicyError. */
  function AddEntry(d: Draft, e: Entry): Option<Draft> {
    match e
    case Blank => Some(d)
    case PerCall(raw) => if d.perCall.Some? then None else Some(d.(perCall := Some(raw)))
    case Daily(raw) => if d.daily.Some? then None else Some(d.(daily := Some(raw)))
    case Allow(key) => Some(if key in d.allow then d else d.(allow := d.allow + [key]))
    case Bad => None
  }

  function AddEntries(entries: seq<Entry>): Option<Draft> {
    if entries == [] then Some(Draft(None, None, [])) else
      match AddEntries(entries[..|entries| - 1])
      case None => None
      case Some(d) => AddEntry(d, entries[|entries| - 1])
  }

  function Entries(blake: Blake40, lines: seq<string>): (es: seq<Entry>)
    ensures |es| == |lines|
    ensures forall i | 0 <= i < |lines| :: es[i] == EntryOf(blake, lines[i])
  {
    seq(|lines|, i requires 0 <= i < |lines| => EntryOf(blake, lines[i]))
  }

  function Finish(d: Draft): Option<Policy> {
    if d.perCall.None? || d.daily.None? || d.allow == [] || d.perCall.value > d.daily.value then None
    else Some(Policy(d.perCall.value, d.daily.value, d.allow))
  }

  /** What the lines of a file come to. */
  function Parsed(blake: Blake40, lines: seq<string>): Option<Policy> {
    match AddEntries(Entries(blake, lines))
    case None => None
    case Some(d) => Finish(d)
  }

  /** `parse_policy` on the lines of the text; None is PolicyError (or the ValueError of a cap with too many places). */
  method ParsePolicy(blake: Blake40, lines: seq<string>) returns (r: Option<Policy>)
    ensures r == Parsed(blake, lines)
  {
    hide EntryOf;
    var draft := Draft(None, None, []);
    var entries := Entries(blake, lines);
    for i := 0 to |lines|
      invariant AddEntries(entries[..i]) == Some(draft)
    {
      var next := AddEntry(draft, EntryOf(blake, lines[i]));
      assert entries[..i + 1][..i] == entries[..i];
      if next.None? {
        RefusedForGood(entries, i + 1);
        return None;
      }
      draft := next.value;
    }
    assert entries[..|lines|] == entries;
    return Finish(draft);
  }

  /** A refused line refuses the file. */
  lemma {:induction false} RefusedForGood(entries: seq<Entry>, n: nat)
    requires n <= |entries| && AddEntries(entries[..n]).None?
    ensures AddEntries(entries).None?
    decreases |entries|
  {
    if n == |entries| {
      assert entries[..n] == entries;
    } else {
      assert entries[..|entries| - 1][..n] == entries[..n];
      RefusedForGood(entries[..|entries| - 1], n);
    }
  }

  // ------------------------------------------------------------------ what a policy file means

  function Count(entries: seq<Entry>, pick: Entry -> bool): nat {
    if entries == [] then 0 else
      Count(entries[..|entries| - 1], pick) + if pick(entries[|entries| - 1]) then 1 else 0
  }

  function PerCalls(entries: seq<Entry>): nat {
    Count(entries, (e: Entry) => e.PerCall?)
  }

  function Dailies(entries: seq<Entry>): nat {
    Count(entries, (e: Entry) => e.Daily?)
  }

  predicate NoRepeats(keys: seq<Bytes32>) {
    forall i, j | 0 <= i < j < |keys| :: keys[i] != keys[j]
  }

  /** The gathered draft says what the lines say. */
  ghost predicate DraftOf(entries: seq<Entry>, d: Draft) {
    && PerCalls(entries) == (if d.perCall.Some? then 1 else 0) && Dailies(entries) == (if d.daily.Some? then 1 else 0)
    && (forall raw: nat :: PerCall(raw) in entries <==> d.perCall == Some(raw))
    && (forall raw: nat :: Daily(raw) in entries <==> d.daily == Some(raw))
    && (forall key :: Allow(key) in entries <==> key in d.allow)
    && NoRepeats(d.allow)
  }

  lemma {:induction false} DraftExact(entries: seq<Entry>)
    ensures AddEntries(entries).Some? <==> Bad !in entries && PerCalls(entries) <= 1 && Dailies(entries) <= 1
    ensures AddEntries(entries).Some? ==> DraftOf(entries, AddEntries(entries).value)
  {
    if entries == [] {
    } else {
      var init, last := entries[..|entries| - 1], entries[|entries| - 1];
      assert entries == init + [last];
      DraftExact(init);
    }
  }

  /** Receivers are listed in the order they are first named in. */
  lemma {:induction false} AllowInOrder(entries: seq<Entry>, n: nat)
    requires n <= |entries| && AddEntries(entries).Some?
    ensures AddEntries(entries[..n]).Some? && AddEntries(entries[..n]).value.allow <= AddEntries(entries).value.allow
    decreases |entries|
  {
    if n == |entries| {
      assert entries[..n] == entries;
    } else {
      assert entries[..|entries| - 1][..n] == entries[..n];
      AllowInOrder(entries[..|entries| - 1], n);
    }
  }

  /** A file is accepted exactly when every line reads, there is one line for each cap and at least one allowed
      receiver, and the per-call cap is within the daily one. The policy then has those caps and, once each, those
      receivers; the order of the lines does not matter to any of it. */
  lemma PolicyExact(blake: Blake40, lines: seq<string>, p: Policy)
    ensures var entries := Entries(blake, lines);
      var parsed := Parsed(blake, lines);
      && (parsed.Some? <==>
           && Bad !in entries && PerCalls(entries) == 1 && Dailies(entries) == 1
           && (exists key :: Allow(key) in entries)
           && (forall perCall: nat, daily: nat ::
                 PerCall(perCall) in entries && Daily(daily) in entries ==> perCall <= daily))
      && (parsed == Some(p) ==>
           && PerCall(p.perCallMaxRaw) in entries && Daily(p.dailyMaxRaw) in entries
           && (forall key :: key in p.allow <==> Allow(key) in entries) && NoRepeats(p.allow)
           && 0 < p.perCallMaxRaw <= p.dailyMaxRaw)
  {
    hide EntryOf, PerCalls, Dailies;
    var entries := Entries(blake, lines);
    DraftExact(entries);
    CapsArePositive(blake, lines);
    if AddEntries(entries).Some? {
      var d := AddEntries(entries).value;
      if d.allow != [] {
        assert d.allow[0] in d.allow;
        assert Allow(d.allow[0]) in entries;
      }
    }
  }

  lemma CapsArePositive(blake: Blake40, lines: seq<string>)
    ensures forall raw: nat :: PerCall(raw) in Entries(blake, lines) ==> raw > 0
  {
    hide Words, Strip, IsPlainDecimal, NanoToRaw, PublicKeyFromAddress;
  }

  // ------------------------------------------------------------------ from the characters of a line

  /** A word of a policy line: not empty, and free of blanks and of the comment sign. */
  predicate IsWord(w: string) {
    w != "" && forall i | 0 <= i < |w| :: !IsSpace(w[i]) && w[i] != '#'
  }

  predicate IsComment(s: string) {
    s == "" || s[0] == '#'
  }

  predicate IsLine(line: string, b0: string, name: string, b1: string, value: string, b2: string, comment: string) {
    && line == b0 + name + b1 + value + b2 + comment && b1 != ""
    && AllSpace(b0) && AllSpace(b1) && AllSpace(b2) && IsWord(name) && IsWord(value) && IsComment(comment)
  }

  /** The line is these two words, with blanks around and between them and perhaps a comment behind. */
  ghost predicate Says(line: string, name: string, value: string) {
    exists b0, b1, b2, comment :: IsLine(line, b0, name, b1, value, b2, comment)
  }

  /** The line is blank, but perhaps for a comment. */
  ghost predicate SaysNothing(line: string) {
    exists b, comment :: line == b + comment && AllSpace(b) && IsComment(comment)
  }

  lemma UncommentedSplits(line: string) returns (before: string, after: string, comment: string)
    ensures line == before + Uncommented(line) + after + comment
    ensures AllSpace(before) && AllSpace(after) && IsComment(comment) && '#' !in Uncommented(line)
  {
    var n := Find(line, '#');
    comment := line[n..];
    before, after := StripSplits(line[..n]);
    assert line == line[..n] + comment;
    forall i | 0 <= i < |Uncommented(line)| ensures Uncommented(line)[i] != '#' {
      assert Uncommented(line)[i] == line[..n][|before| + i];
    }
  }

  lemma UncommentedOf(before: string, core: string, after: string, comment: string)
    requires AllSpace(before) && AllSpace(after) && IsComment(comment) && '#' !in core
    requires core != "" ==> !IsSpace(core[0]) && !IsSpace(core[|core| - 1])
    ensures Uncommented(before + core + after + comment) == core
  {
    var text := before + core + after;
    assert forall i | 0 <= i < |text| :: text[i] != '#' by {
      forall i | 0 <= i < |text| ensures text[i] != '#' {
        if |before| <= i < |before| + |core| {
          assert text[i] == core[i - |before|];
        }
      }
    }
    FindFirst(text + comment, '#', |text|);
    assert (text + comment)[..|text|] == text;
    StripExact(before, core, after);
  }

  lemma {:induction false} WordLengthIs(w: string, rest: string)
    requires (forall i | 0 <= i < |w| :: !IsSpace(w[i])) && (rest == "" || IsSpace(rest[0]))
    ensures WordLength(w + rest) == |w|
  {
    if w == "" {
      assert w + rest == rest;
    } else {
      assert (w + rest)[1..] == w[1..] + rest;
      WordLengthIs(w[1..], rest);
    }
  }

  /** Blanks, a word, and what follows it. */
  lemma {:induction false} WordsStep(before: string, w: string, rest: string)
    requires AllSpace(before) && w != "" && (forall i | 0 <= i < |w| :: !IsSpace(w[i]))
    requires rest == "" || IsSpace(rest[0])
    ensures Words(before + w + rest) == [w] + Words(rest)
    decreases |before|
  {
    var s := before + w + rest;
    if before == "" {
      assert s == w + rest;
      WordLengthIs(w, rest);
      assert s[..|w|] == w && s[|w|..] == rest;
    } else {
      assert s[1..] == before[1..] + w + rest;
      WordsStep(before[1..], w, rest);
    }
  }

  lemma {:induction false} WordsOfBlank(s: string)
    ensures Words(s) == [] <==> AllSpace(s)
  {
    if s != "" && IsSpace(s[0]) {
      WordsOfBlank(s[1..]);
      assert s == [s[0]] + s[1..];
    }
  }

  lemma {:induction false} WordLengthStops(s: string)
    ensures forall i | 0 <= i < WordLength(s) :: !IsSpace(s[i])
    ensures WordLength(s) < |s| ==> IsSpace(s[WordLength(s)])
  {
    if s != "" && !IsSpace(s[0]) {
      WordLengthStops(s[1..]);
    }
  }

  lemma Prepend(s: string, blanks: string, w: string, rest: string)
    requires s != "" && IsSpace(s[0]) && s[1..] == blanks + w + rest && AllSpace(blanks)
    ensures s == [s[0]] + blanks + w + rest && AllSpace([s[0]] + blanks)
  {
    assert s == [s[0]] + s[1..];
  }

  /** The first word of a text, where there is one. */
  lemma {:induction false} FirstWord(s: string) returns (before: string, w: string, rest: string)
    requires Words(s) != []
    ensures s == before + w + rest && AllSpace(before) && w != "" && (forall i | 0 <= i < |w| :: !IsSpace(w[i]))
    ensures (rest == "" || IsSpace(rest[0])) && Words(s) == [w] + Words(rest)
    ensures before == "" ==> !IsSpace(s[0])
  {
    if IsSpace(s[0]) {
      var blanks;
      blanks, w, rest := FirstWord(s[1..]);
      before := [s[0]] + blanks;
      Prepend(s, blanks, w, rest);
    } else {
      WordLengthStops(s);
      before, w, rest := "", s[..WordLength(s)], s[WordLength(s)..];
      assert s == w + rest;
      assert before + w + rest == s;
    }
  }

  /** The words of a line, exactly: two of them, or none. */
  lemma WordsExact(line: string, name: string, value: string)
    ensures Words(Uncommented(line)) == [name, value] <==> Says(line, name, value)
  {
    hide Words, Uncommented, Says;
    if Words(Uncommented(line)) == [name, value] {
      TwoWordsSay(line, name, value);
    }
    if Says(line, name, value) {
      SaysTwoWords(line, name, value);
    }
  }

  lemma BlankExact(line: string)
    ensures Uncommented(line) == "" <==> SaysNothing(line)
  {
    hide Uncommented;
    if Uncommented(line) == "" {
      var before, after, comment := UncommentedSplits(line);
      assert line == (before + after) + comment && AllSpace(before + after);
    }
    if SaysNothing(line) {
      var b, comment :| line == b + comment && AllSpace(b) && IsComment(comment);
      assert b + "" + "" + comment == b + comment;
      UncommentedOf(b, "", "", comment);
    }
  }

  lemma TwoWordsSay(line: string, name: string, value: string)
    requires Words(Uncommented(line)) == [name, value]
    ensures Says(line, name, value)
  {
    hide Words, Uncommented;
    var text := Uncommented(line);
    var before, after, comment := UncommentedSplits(line);
    var b0, w1, rest := FirstWord(text);
    assert ([w1] + Words(rest))[0] == name && ([w1] + Words(rest))[1..] == [value];
    var b1, w2, b2 := FirstWord(rest);
    assert ([w2] + Words(b2))[0] == value && ([w2] + Words(b2))[1..] == [];
    WordsOfBlank(b2);
    assert text == b0 + name + (b1 + value + b2);
    forall c | c in name || c in value ensures c != '#' {
      assert c in text;
    }
    assert AllSpace(before + b0) && AllSpace(b2 + after);
    Regroup(line, text, before, b0, name, b1, value, b2, after, comment);
    assert IsLine(line, before + b0, name, b1, value, b2 + after, comment);
  }

  lemma Regroup(line: string, text: string, before: string, b0: string, name: string, b1: string, value: string,
                b2: string, after: string, comment: string)
    requires line == before + text + after + comment && text == b0 + name + (b1 + value + b2)
    ensures line == (before + b0) + name + b1 + value + (b2 + after) + comment
  {
  }

  lemma SaysTwoWords(line: string, name: string, value: string)
    requires Says(line, name, value)
    ensures Words(Uncommented(line)) == [name, value]
  {
    hide Words, Uncommented;
    var b0, b1, b2, comment :| IsLine(line, b0, name, b1, value, b2, comment);
    var core := name + b1 + value;
    assert line == b0 + core + b2 + comment;
    assert core[0] == name[0] && core[|core| - 1] == value[|value| - 1];
    NoSign(name, b1, value);
    UncommentedOf(b0, core, b2, comment);
    assert core == "" + name + (b1 + value);
    assert (b1 + value)[0] == b1[0];
    WordsStep("", name, b1 + value);
    assert b1 + value == b1 + value + "";
    WordsStep(b1, value, "");
    WordsOfBlank("");
  }

  lemma NoSign(name: string, b: string, value: string)
    requires IsWord(name) && IsWord(value) && AllSpace(b)
    ensures '#' !in name + b + value
  {
    var s := name + b + value;
    forall i | 0 <= i < |s| ensures s[i] != '#' {
      if |name| <= i < |name| + |b| {
        assert s[i] == b[i - |name|];
      }
    }
  }

  /** A plain decimal: digits, and perhaps one point before, between or behind them. */
  ghost predicate IsDecimal(value: string) {
    exists a, b :: IsDecimalOf(value, a, b)
  }

  predicate IsDecimalOf(value: string, a: string, b: string) {
    AllDigits(a) && AllDigits(b) && a + b != "" && (value == a + b || value == a + "." + b)
  }

  lemma PlainDecimalExact(value: string)
    ensures IsPlainDecimal(value) <==> IsDecimal(value)
  {
    hide IsPlainDecimal, IsDecimalOf;
    if IsPlainDecimal(value) {
      PlainIsDecimal(value);
    }
    if IsDecimal(value) {
      var a, b :| IsDecimalOf(value, a, b);
      DecimalIsPlain(value, a, b);
    }
  }

  lemma PlainIsDecimal(value: string)
    requires IsPlainDecimal(value)
    ensures IsDecimal(value)
  {
    hide Find;
    var dot := Find(value, '.');
    var a, b := value[..dot], if dot < |value| then value[dot + 1..] else "";
    if dot < |value| {
      assert value == a + "." + b;
      DigitsOfParts(a, b);
    } else {
      assert value == a == a + b;
    }
    assert IsDecimalOf(value, a, b);
  }

  lemma DigitsOfParts(a: string, b: string)
    requires AllDigits(a + b)
    ensures AllDigits(a) && AllDigits(b)
  {
    assert forall i | 0 <= i < |a| :: a[i] == (a + b)[i];
    assert forall i | 0 <= i < |b| :: b[i] == (a + b)[|a| + i];
  }

  lemma DecimalIsPlain(value: string, a: string, b: string)
    requires IsDecimalOf(value, a, b)
    ensures IsPlainDecimal(value)
  {
    hide Find;
    if value == a + b {
      assert forall i | 0 <= i < |value| :: IsDigit(value[i]);
      FindFirst(value, '.', |value|);
    } else {
      assert value[|a|] == '.';
      FindFirst(value, '.', |a|);
      assert value[..|a|] == a && value[|a| + 1..] == b;
    }
  }

  // ------------------------------------------------------------------ what a policy file says

  /** The line sets a cap: the keyword, and a plain decimal that is a positive number of raw. */
  ghost predicate Sets(line: string, name: string, raw: nat) {
    raw > 0 && exists value :: Says(line, name, value) && IsDecimal(value) && NanoToRaw(value) == Some(raw)
  }

  ghost predicate Allows(blake: Blake40, line: string, key: Bytes32) {
    exists address :: Says(line, "allow", address) && PublicKeyFromAddress(blake, address) == Some(key)
  }

  lemma SaysOneThing(line: string, n1: string, v1: string, n2: string, v2: string)
    requires Says(line, n1, v1) && Says(line, n2, v2)
    ensures n1 == n2 && v1 == v2
  {
    WordsExact(line, n1, v1);
    WordsExact(line, n2, v2);
    assert [n1, v1] == [n2, v2];
  }

  const ZERO_KEY: Bytes32 := seq(32, _ => 0)

  /** What a line is taken for, exactly, by its characters. */
  lemma EntryExact(blake: Blake40, line: string, raw: nat, key: Bytes32)
    ensures EntryOf(blake, line) == Blank <==> SaysNothing(line)
    ensures EntryOf(blake, line) == PerCall(raw) <==> Sets(line, "per_call_max_xno", raw)
    ensures EntryOf(blake, line) == Daily(raw) <==> Sets(line, "daily_max_xno", raw)
    ensures EntryOf(blake, line) == Allow(key) <==> Allows(blake, line, key)
  {
    hide Words, Uncommented, Says, SaysNothing, IsPlainDecimal, IsDecimal, NanoToRaw, PublicKeyFromAddress;
    var parts := Words(Uncommented(line));
    BlankExact(line);
    EmptyHasNoWords(line);
    if |parts| == 2 {
      assert parts == [parts[0], parts[1]];
      WordsExact(line, parts[0], parts[1]);
      PlainDecimalExact(parts[1]);
      forall n, v | Says(line, n, v) ensures n == parts[0] && v == parts[1] {
        SaysOneThing(line, n, v, parts[0], parts[1]);
      }
    } else {
      forall n, v ensures !Says(line, n, v) {
        WordsExact(line, n, v);
      }
    }
  }

  lemma EmptyHasNoWords(line: string)
    ensures Uncommented(line) == "" ==> Words(Uncommented(line)) == []
  {
  }

  ghost predicate SetsCap(line: string, name: string) {
    exists raw :: Sets(line, name, raw)
  }

  ghost predicate AllowsSome(blake: Blake40, line: string) {
    exists key :: Allows(blake, line, key)
  }

  lemma EntryKinds(blake: Blake40, line: string)
    ensures EntryOf(blake, line).PerCall? <==> SetsCap(line, "per_call_max_xno")
    ensures EntryOf(blake, line).Daily? <==> SetsCap(line, "daily_max_xno")
    ensures EntryOf(blake, line).Allow? <==> AllowsSome(blake, line)
    ensures EntryOf(blake, line).Blank? <==> SaysNothing(line)
  {
    hide EntryOf, Sets, Allows, SaysNothing;
    var e := EntryOf(blake, line);
    EntryExact(blake, line, if e.PerCall? || e.Daily? then e.raw else 0, if e.Allow? then e.key else ZERO_KEY);
    forall raw | Sets(line, "per_call_max_xno", raw) || Sets(line, "daily_max_xno", raw)
      ensures Sets(line, "per_call_max_xno", raw) ==> e == PerCall(raw)
      ensures Sets(line, "daily_max_xno", raw) ==> e == Daily(raw)
    {
      EntryExact(blake, line, raw, ZERO_KEY);
    }
    forall key | Allows(blake, line, key) ensures e == Allow(key) {
      EntryExact(blake, line, 0, key);
    }
  }

  lemma {:induction false} CountZero(entries: seq<Entry>, pick: Entry -> bool)
    ensures Count(entries, pick) == 0 <==> forall i | 0 <= i < |entries| :: !pick(entries[i])
  {
    if entries != [] {
      var n := |entries| - 1;
      CountZero(entries[..n], pick);
      assert forall i | 0 <= i < n :: entries[..n][i] == entries[i];
    }
  }

  predicate OnlyOne(entries: seq<Entry>, pick: Entry -> bool, i: nat) {
    i < |entries| && pick(entries[i]) && forall j | 0 <= j < |entries| && j != i :: !pick(entries[j])
  }

  lemma {:induction false} CountOne(entries: seq<Entry>, pick: Entry -> bool)
    ensures Count(entries, pick) == 1 <==> exists i :: OnlyOne(entries, pick, i)
  {
    if entries == [] {
    } else {
      var n := |entries| - 1;
      var init := entries[..n];
      assert forall i | 0 <= i < n :: init[i] == entries[i];
      CountZero(init, pick);
      CountOne(init, pick);
      if Count(entries, pick) == 1 {
        if pick(entries[n]) {
          assert OnlyOne(entries, pick, n);
        } else {
          var i :| OnlyOne(init, pick, i);
          assert OnlyOne(entries, pick, i);
        }
      }
      if exists i :: OnlyOne(entries, pick, i) {
        var i: nat :| OnlyOne(entries, pick, i);
        assert i < n ==> OnlyOne(init, pick, i);
      }
    }
  }

  /** One line of the file, and no other, sets the cap. */
  ghost predicate OneSets(lines: seq<string>, name: string) {
    exists i: nat :: OnlySets(lines, name, i)
  }

  ghost predicate OnlySets(lines: seq<string>, name: string, i: nat) {
    i < |lines| && SetsCap(lines[i], name) && forall j | 0 <= j < |lines| && j != i :: !SetsCap(lines[j], name)
  }

  lemma OneSetsExact(blake: Blake40, lines: seq<string>)
    ensures PerCalls(Entries(blake, lines)) == 1 <==> OneSets(lines, "per_call_max_xno")
    ensures Dailies(Entries(blake, lines)) == 1 <==> OneSets(lines, "daily_max_xno")
  {
    hide EntryOf, SetsCap, Count;
    var entries := Entries(blake, lines);
    var perCall, daily := (e: Entry) => e.PerCall?, (e: Entry) => e.Daily?;
    forall i | 0 <= i < |lines|
      ensures entries[i].PerCall? <==> SetsCap(lines[i], "per_call_max_xno")
      ensures entries[i].Daily? <==> SetsCap(lines[i], "daily_max_xno")
    {
      EntryKinds(blake, lines[i]);
    }
    CountOne(entries, perCall);
    CountOne(entries, daily);
    assert forall i :: OnlyOne(entries, perCall, i) <==> OnlySets(lines, "per_call_max_xno", i);
    assert forall i :: OnlyOne(entries, daily, i) <==> OnlySets(lines, "daily_max_xno", i);
  }

  lemma CapInEntries(blake: Blake40, lines: seq<string>, raw: nat)
    ensures var entries := Entries(blake, lines);
      && (PerCall(raw) in entries <==> exists i | 0 <= i < |lines| :: Sets(lines[i], "per_call_max_xno", raw))
      && (Daily(raw) in entries <==> exists i | 0 <= i < |lines| :: Sets(lines[i], "daily_max_xno", raw))
  {
    hide EntryOf, Sets, Allows, SaysNothing;
    var entries := Entries(blake, lines);
    forall i | 0 <= i < |lines|
      ensures entries[i] == PerCall(raw) <==> Sets(lines[i], "per_call_max_xno", raw)
      ensures entries[i] == Daily(raw) <==> Sets(lines[i], "daily_max_xno", raw)
    {
      EntryExact(blake, lines[i], raw, ZERO_KEY);
    }
  }

  lemma AllowInEntries(blake: Blake40, lines: seq<string>, key: Bytes32)
    ensures Allow(key) in Entries(blake, lines) <==> exists i | 0 <= i < |lines| :: Allows(blake, lines[i], key)
  {
    hide EntryOf, Sets, Allows, SaysNothing;
    forall i | 0 <= i < |lines|
      ensures Entries(blake, lines)[i] == Allow(key) <==> Allows(blake, lines[i], key)
    {
      EntryExact(blake, lines[i], 0, key);
    }
  }

  lemma SomeAllowInEntries(blake: Blake40, lines: seq<string>)
    ensures (exists key :: Allow(key) in Entries(blake, lines))
       <==> exists i | 0 <= i < |lines| :: AllowsSome(blake, lines[i])
  {
    hide EntryOf, Sets, Allows;
    var entries := Entries(blake, lines);
    if exists key :: Allow(key) in entries {
      var key :| Allow(key) in entries;
      AllowInEntries(blake, lines, key);
    }
    if exists i | 0 <= i < |lines| :: AllowsSome(blake, lines[i]) {
      var i :| 0 <= i < |lines| && AllowsSome(blake, lines[i]);
      var key :| Allows(blake, lines[i], key);
      AllowInEntries(blake, lines, key);
    }
  }

  /** Whatever per-call cap some line sets is within whatever daily cap some line sets. */
  ghost predicate CapsInOrder(lines: seq<string>) {
    forall i, j, perCall, daily | 0 <= i < |lines| && 0 <= j < |lines| ::
      Sets(lines[i], "per_call_max_xno", perCall) && Sets(lines[j], "daily_max_xno", daily) ==> perCall <= daily
  }

  lemma CapsInOrderExact(blake: Blake40, lines: seq<string>)
    ensures CapsInOrder(lines) <==> forall perCall: nat, daily: nat ::
      PerCall(perCall) in Entries(blake, lines) && Daily(daily) in Entries(blake, lines) ==> perCall <= daily
  {
    hide EntryOf, Sets, Entries;
    forall raw: nat
      ensures PerCall(raw) in Entries(blake, lines) <==>
        exists i | 0 <= i < |lines| :: Sets(lines[i], "per_call_max_xno", raw)
      ensures Daily(raw) in Entries(blake, lines) <==>
        exists i | 0 <= i < |lines| :: Sets(lines[i], "daily_max_xno", raw)
    {
      CapInEntries(blake, lines, raw);
    }
    if CapsInOrder(lines) {
      forall perCall: nat, daily: nat
        | PerCall(perCall) in Entries(blake, lines) && Daily(daily) in Entries(blake, lines)
        ensures perCall <= daily
      {
        var i :| 0 <= i < |lines| && Sets(lines[i], "per_call_max_xno", perCall);
        var j :| 0 <= j < |lines| && Sets(lines[j], "daily_max_xno", daily);
      }
    } else {
      var i, j, perCall, daily :| 0 <= i < |lines| && 0 <= j < |lines| && Sets(lines[i], "per_call_max_xno", perCall)
        && Sets(lines[j], "daily_max_xno", daily) && perCall > daily;
      assert PerCall(perCall) in Entries(blake, lines) && Daily(daily) in Entries(blake, lines);
    }
  }

  lemma BadInEntries(blake: Blake40, lines: seq<string>)
    ensures Bad !in Entries(blake, lines) <==> forall i | 0 <= i < |lines| ::
      || SaysNothing(lines[i]) || SetsCap(lines[i], "per_call_max_xno") || SetsCap(lines[i], "daily_max_xno")
      || AllowsSome(blake, lines[i])
  {
    hide EntryOf, SetsCap, AllowsSome, SaysNothing;
    var entries := Entries(blake, lines);
    forall i | 0 <= i < |lines| ensures entries[i] != Bad <==>
      || SaysNothing(lines[i]) || SetsCap(lines[i], "per_call_max_xno") || SetsCap(lines[i], "daily_max_xno")
      || AllowsSome(blake, lines[i])
    {
      EntryKinds(blake, lines[i]);
    }
  }

  /** What a policy file has to say, by its characters: it is accepted exactly when every line is blank, sets one of the
      two caps or allows an address, each cap is set by one line and no other, an address is allowed, and the per-call
      cap is within the daily one. */
  lemma AcceptedTextExact(blake: Blake40, lines: seq<string>)
    ensures Parsed(blake, lines).Some? <==>
      && (forall i | 0 <= i < |lines| ::
            || SaysNothing(lines[i]) || SetsCap(lines[i], "per_call_max_xno") || SetsCap(lines[i], "daily_max_xno")
            || AllowsSome(blake, lines[i]))
      && OneSets(lines, "per_call_max_xno") && OneSets(lines, "daily_max_xno")
      && (exists i | 0 <= i < |lines| :: AllowsSome(blake, lines[i])) && CapsInOrder(lines)
  {
    hide Entries, PerCalls, Dailies, SaysNothing, OneSets, SetsCap, AllowsSome, CapsInOrder, Finish, AddEntries;
    PolicyExact(blake, lines, Policy(0, 0, []));
    BadInEntries(blake, lines);
    OneSetsExact(blake, lines);
    SomeAllowInEntries(blake, lines);
    CapsInOrderExact(blake, lines);
  }

  /** And what it then means. */
  lemma PolicyTextMeans(blake: Blake40, lines: seq<string>, p: Policy, key: Bytes32)
    requires Parsed(blake, lines) == Some(p)
    ensures exists i | 0 <= i < |lines| :: Sets(lines[i], "per_call_max_xno", p.perCallMaxRaw)
    ensures exists i | 0 <= i < |lines| :: Sets(lines[i], "daily_max_xno", p.dailyMaxRaw)
    ensures key in p.allow <==> exists i | 0 <= i < |lines| :: Allows(blake, lines[i], key)
    ensures forall i, j | 0 <= i < j < |p.allow| :: p.allow[i] != p.allow[j]
  {
    hide Entries, PerCalls, Dailies, Sets, Allows, Finish, AddEntries;
    PolicyExact(blake, lines, p);
    CapInEntries(blake, lines, p.perCallMaxRaw);
    CapInEntries(blake, lines, p.dailyMaxRaw);
    AllowInEntries(blake, lines, key);
  }
}
