/** Spellings of a single-use claim key, in Python (`_canonical_key`) and in the SQL of the migration. */
module ClaimKeys {
  import opened Text

  const PREFIX := "nano:live "

  /** Python's `s[lo:hi]` for `0 <= lo <= hi`. */
  function Slice(s: string, lo: nat, hi: nat): string
    requires lo <= hi
  {
    if |s| <= lo then "" else if |s| <= hi then s[lo..] else s[lo..hi]
  }

  function SliceFrom(s: string, lo: nat): string {
    if |s| <= lo then "" else s[lo..]
  }

  /** SQLite's `substr(s, start, length)` and `substr(s, start)`; positions count from 1. */
  function Substr(s: string, start: nat, length: nat): string
    requires start >= 1
  {
    Slice(s, start - 1, start - 1 + length)
  }

  function SubstrFrom(s: string, start: nat): string
    requires start >= 1
  {
    SliceFrom(s, start - 1)
  }

  /** `_canonical_key` */
  function CanonicalKey(key: string): string {
    if !(PREFIX <= key) then key else
      var rest := key[|PREFIX|..];
      var hash, tail := Slice(rest, 0, 64), SliceFrom(rest, 64);
      if !IsHex64(hash) then key else
        var tail' := if "\n " <= tail then tail[1..] else tail;
        if !(" " <= tail') then key else PREFIX + Upper(hash) + tail'
  }

  /** The key exactly as a caller spelt it: what the previous release stores. */
  function KeyAsSent(hash: string, requestId: string): string {
    PREFIX + hash + " " + requestId
  }

  /** `consumption_key` */
  function ConsumptionKey(hash: string, requestId: string): string {
    CanonicalKey(KeyAsSent(hash, requestId))
  }

  /** The CASE of `_CANONICAL_SQL`: what follows the hash, without a newline right after it. */
  function SqlTail(key: string): string {
    if Substr(key, 75, 2) == "\n " then SubstrFrom(key, 76) else SubstrFrom(key, 75)
  }

  /** `_CANONICAL_SQL` on one row. */
  function CanonicalSql(key: string): string {
    PREFIX + Upper(Substr(key, 11, 64)) + SqlTail(key)
  }

  lemma SqlTailAfterSpace(key: string)
    requires " " <= SliceFrom(key, 74)
    ensures SqlTail(key) == SliceFrom(key, 74)
  {
    assert Substr(key, 75, 2)[0] == SliceFrom(key, 74)[0] == ' ';
  }

  /** `_PENDING_WHERE` on one row of a table holding `keys`. */
  predicate PendingWhere(key: string, keys: set<string>) {
    && Substr(key, 1, 10) == PREFIX
    && (Substr(key, 11, 64) != Upper(Substr(key, 11, 64)) || Substr(key, 75, 1) == "\n")
    && (Substr(key, 75, 1) == " " || Substr(key, 75, 2) == "\n ")
    && |Substr(key, 11, 64)| == 64
    && (if CanonicalSql(key) in keys then false else AllHex(Substr(key, 11, 64)))
  }

  /** `_OLD_SPELLING_SQL` on one row. It has no hex test. */
  predicate OldSpellingWhere(key: string, canonical: string) {
    Substr(key, 1, 10) == PREFIX && CanonicalSql(key) == canonical
  }

  /** A key `_canonical_key` recognises: `nano:live <64 hex>` and then `" "` or `"\n "`. */
  predicate WellShaped(key: string) {
    && PREFIX <= key
    && IsHex64(Slice(key, 10, 74))
    && (" " <= SliceFrom(key, 74) || "\n " <= SliceFrom(key, 74))
  }

  lemma SliceOfPrefixed(key: string)
    requires PREFIX <= key
    ensures Slice(key[10..], 0, 64) == Slice(key, 10, 74)
    ensures SliceFrom(key[10..], 64) == SliceFrom(key, 74)
  {
  }

  /** On recognised keys Python and SQL spell the same canonical key; every other key stands for itself. */
  lemma CanonicalForms(key: string)
    ensures WellShaped(key) ==> CanonicalKey(key) == CanonicalSql(key)
    ensures !WellShaped(key) ==> CanonicalKey(key) == key
  {
    if PREFIX <= key {
      SliceOfPrefixed(key);
    }
  }

  lemma SplitCanonical(hash: string, tail: string)
    requires |hash| == 64
    ensures var c := PREFIX + hash + tail;
      PREFIX <= c && Slice(c, 10, 74) == hash && SliceFrom(c, 74) == tail
  {
    var c := PREFIX + hash + tail;
    assert c == PREFIX + (hash + tail);
  }

  lemma CanonicalIsWellShaped(key: string)
    requires WellShaped(key)
    ensures WellShaped(CanonicalKey(key))
    ensures " " <= SliceFrom(CanonicalKey(key), 74)
    ensures Slice(CanonicalKey(key), 10, 74) == Upper(Slice(key, 10, 74))
  {
    CanonicalForms(key);
    var hash := Slice(key, 10, 74);
    UpperKeepsHex(hash);
    SplitCanonical(Upper(hash), SqlTail(key));
  }

  lemma Recompose(key: string)
    requires PREFIX <= key
    ensures key == PREFIX + Slice(key, 10, 74) + SliceFrom(key, 74)
  {
  }

  /** A recognised key is canonical exactly when its hash is upper case and a space follows it. */
  lemma CanonicalFixedPoint(key: string)
    requires WellShaped(key)
    ensures CanonicalKey(key) == key <==>
      Upper(Slice(key, 10, 74)) == Slice(key, 10, 74) && " " <= SliceFrom(key, 74)
  {
    CanonicalIsWellShaped(key);
    CanonicalForms(key);
    Recompose(key);
    if " " <= SliceFrom(key, 74) {
      SqlTailAfterSpace(key);
    }
  }

  /** Canonicalising twice changes nothing. */
  lemma CanonicalIdempotent(key: string)
    ensures CanonicalKey(CanonicalKey(key)) == CanonicalKey(key)
  {
    CanonicalForms(key);
    if WellShaped(key) {
      CanonicalIsWellShaped(key);
      UpperKeepsHex(Slice(key, 10, 74));
      CanonicalFixedPoint(CanonicalKey(key));
    }
  }

  /** The migration's WHERE clause selects exactly the rows whose canonical key is another key that is not
      stored yet. */
  lemma PendingWhereExact(key: string, keys: set<string>)
    ensures PendingWhere(key, keys) <==> CanonicalKey(key) != key && CanonicalKey(key) !in keys
  {
    CanonicalForms(key);
    if WellShaped(key) {
      CanonicalFixedPoint(key);
    }
  }

  lemma CanonicalSqlParts(key: string)
    requires |key| >= 10
    ensures Slice(CanonicalSql(key), 10, 74) == Upper(Slice(key, 10, 74))
    ensures SliceFrom(CanonicalSql(key), 74) == SqlTail(key)
    ensures |key| < 74 ==> |CanonicalSql(key)| < 74
  {
    var hash := Upper(Slice(key, 10, 74));
    assert CanonicalSql(key) == PREFIX + hash + SqlTail(key);
    if |key| >= 74 {
      SplitCanonical(hash, SqlTail(key));
    }
  }

  /** Against a recognised canonical key the old-spelling scan finds exactly the rows of that class. */
  lemma OldSpellingExact(key: string, canonical: string)
    requires WellShaped(canonical) && CanonicalKey(canonical) == canonical
    ensures OldSpellingWhere(key, canonical) <==> CanonicalKey(key) == canonical
  {
    hide CanonicalKey, Upper;
    CanonicalForms(key);
    if WellShaped(key) {
      SliceOfPrefixed(key);
    } else if OldSpellingWhere(key, canonical) {
      CanonicalSqlParts(key);
      CanonicalFixedPoint(canonical);
      UpperKeepsHex(Slice(key, 10, 74));
    }
  }

  lemma AsSentShape(hash: string, requestId: string)
    requires IsHex64(hash)
    ensures WellShaped(KeyAsSent(hash, requestId))
    ensures ConsumptionKey(hash, requestId) == PREFIX + Upper(hash) + (" " + requestId)
  {
    assert KeyAsSent(hash, requestId) == PREFIX + hash + (" " + requestId);
    SplitCanonical(hash, " " + requestId);
    SqlTailAfterSpace(KeyAsSent(hash, requestId));
    CanonicalForms(KeyAsSent(hash, requestId));
  }

  /** Two proofs share a consumption key exactly when they name one block, up to hex case, for one request. */
  lemma ConsumptionKeyExact(h1: string, r1: string, h2: string, r2: string)
    requires IsHex64(h1) && IsHex64(h2)
    ensures ConsumptionKey(h1, r1) == ConsumptionKey(h2, r2) <==> Upper(h1) == Upper(h2) && r1 == r2
  {
    AsSentShape(h1, r1);
    AsSentShape(h2, r2);
    SplitCanonical(Upper(h1), " " + r1);
    SplitCanonical(Upper(h2), " " + r2);
    assert (" " + r1)[1..] == r1 && (" " + r2)[1..] == r2;
  }

  /** A key the migration does not recognise, but whose text the old-spelling scan also reads off another key. */
  predicate HasFalseAlias(canonical: string) {
    var hash, tail := Slice(canonical, 10, 74), SliceFrom(canonical, 74);
    && PREFIX <= canonical
    && !WellShaped(canonical)
    && Upper(hash) == hash
    && !("\n " <= tail)
    && (Lower(hash) != hash || (|hash| == 64 && " " <= tail))
  }

  lemma UpperLower(s: string)
    ensures Upper(Lower(s)) == Upper(s)
    ensures Lower(Upper(s)) == Upper(s) ==> s == Upper(s)
  {
    if Lower(Upper(s)) == Upper(s) {
      forall i | 0 <= i < |s| ensures s[i] == Upper(s)[i] {
        assert Lower(Upper(s))[i] == Upper(s)[i];
      }
    }
  }

  /** A key other than `canonical` that the old-spelling scan takes for it. */
  lemma FalseAlias(canonical: string) returns (key: string)
    requires HasFalseAlias(canonical)
    ensures OldSpellingWhere(key, canonical) && key != canonical
  {
    var hash, tail := Slice(canonical, 10, 74), SliceFrom(canonical, 74);
    Recompose(canonical);
    UpperLower(hash);
    if Lower(hash) != hash {
      key := PREFIX + Lower(hash) + tail;
      JoinKey(Lower(hash), tail);
    } else {
      key := PREFIX + hash + ("\n" + tail);
      JoinKey(hash, "\n" + tail);
    }
  }

  lemma JoinKey(hash: string, tail: string)
    requires |hash| <= 64 && (|hash| < 64 ==> tail == "")
    ensures var key := PREFIX + hash + tail;
      && Substr(key, 1, 10) == PREFIX && Substr(key, 11, 64) == hash
      && Substr(key, 75, 2) == Slice(tail, 0, 2)
      && SubstrFrom(key, 75) == tail && SubstrFrom(key, 76) == SliceFrom(tail, 1)
  {
    assert PREFIX + hash + tail == PREFIX + (hash + tail);
  }

  /** For every canonical key, the old-spelling scan finds only rows of that class exactly when the key has no false
      alias. `settle` passes recognised keys only, which have none. */
  lemma OldSpellingExactIff(canonical: string)
    requires CanonicalKey(canonical) == canonical
    ensures !HasFalseAlias(canonical) <==>
      forall key :: OldSpellingWhere(key, canonical) ==> CanonicalKey(key) == canonical
  {
    if HasFalseAlias(canonical) {
      var key := FalseAlias(canonical);
      AliasIsAnother(key, canonical);
    } else {
      forall key | OldSpellingWhere(key, canonical) ensures CanonicalKey(key) == canonical {
        NoFalseAlias(key, canonical);
      }
    }
  }

  lemma AliasIsAnother(key: string, canonical: string)
    requires !WellShaped(canonical) && OldSpellingWhere(key, canonical)
    ensures CanonicalKey(key) == key
  {
    CanonicalForms(key);
    if WellShaped(key) {
      CanonicalIsWellShaped(key);
    }
  }

  lemma NoFalseAlias(key: string, canonical: string)
    requires CanonicalKey(canonical) == canonical && !HasFalseAlias(canonical)
    requires OldSpellingWhere(key, canonical)
    ensures CanonicalKey(key) == canonical
  {
    if WellShaped(canonical) {
      OldSpellingExact(key, canonical);
    } else {
      AliasIsAnother(key, canonical);
      var hash := Slice(key, 10, 74);
      UpperKeepsHex(hash);
      UpperLower(hash);
      CanonicalSqlParts(key);
      SqlTailCases(key);
      Recompose(key);
    }
  }

  lemma SqlTailCases(key: string)
    ensures !("\n " <= SqlTail(key))
    ensures SqlTail(key) == SliceFrom(key, 74) || (|key| >= 74 && " " <= SqlTail(key))
  {
    if Substr(key, 75, 2) == "\n " {
      assert SqlTail(key)[0] == Substr(key, 75, 2)[1];
    }
  }

  // ------------------------------------------------------------------ character by character

  /** A recognised key, and its canonical form, spelt out. */
  lemma CanonicalExact(hash: string, requestId: string)
    requires |hash| == 64 && forall i | 0 <= i < 64 :: hash[i] in "0123456789abcdefABCDEF"
    ensures CanonicalKey("nano:live " + hash + " " + requestId) == "nano:live " + Upper(hash) + " " + requestId
    ensures CanonicalKey("nano:live " + hash + "\n " + requestId) == "nano:live " + Upper(hash) + " " + requestId
    ensures KeyAsSent(hash, requestId) == "nano:live " + hash + " " + requestId
    ensures ConsumptionKey(hash, requestId) == "nano:live " + Upper(hash) + " " + requestId
  {
    forall i | 0 <= i < 64 ensures IsHexChar(hash[i]) {
      ClassesExact(hash[i]);
    }
    assert "nano:live " + hash + " " + requestId == PREFIX + (hash + (" " + requestId));
    assert "nano:live " + hash + "\n " + requestId == PREFIX + (hash + ("\n " + requestId));
    assert "nano:live " + Upper(hash) + " " + requestId == PREFIX + Upper(hash) + (" " + requestId);
    hide CanonicalKey;
    TailsExact(hash, requestId);
  }

  lemma TailsExact(hash: string, requestId: string)
    requires IsHex64(hash)
    ensures CanonicalKey(PREFIX + (hash + (" " + requestId))) == PREFIX + Upper(hash) + (" " + requestId)
    ensures CanonicalKey(PREFIX + (hash + ("\n " + requestId))) == PREFIX + Upper(hash) + (" " + requestId)
  {
    hide Upper, AllHex;
    SplitRest(hash, " " + requestId);
    SplitRest(hash, "\n " + requestId);
    assert (" " + requestId)[0] == ' ' && !("\n " <= " " + requestId);
    assert ("\n " + requestId)[1..] == " " + requestId;
  }

  lemma SplitRest(hash: string, tail: string)
    requires |hash| == 64
    ensures var key := PREFIX + (hash + tail);
      && PREFIX <= key && key[|PREFIX|..] == hash + tail
      && Slice(key[|PREFIX|..], 0, 64) == hash && SliceFrom(key[|PREFIX|..], 64) == tail
  {
    var key := PREFIX + (hash + tail);
    assert key[|PREFIX|..] == hash + tail;
  }

  /** No other key is recognised. */
  lemma OtherKeysStand(key: string)
    requires forall hash, requestId ::
      !IsKeyOf(key, hash, " " + requestId) && !IsKeyOf(key, hash, "\n " + requestId)
    ensures CanonicalKey(key) == key
  {
    CanonicalForms(key);
    if WellShaped(key) {
      var hash, tail := Slice(key, 10, 74), SliceFrom(key, 74);
      Recompose(key);
      forall i | 0 <= i < 64 ensures hash[i] in "0123456789abcdefABCDEF" {
        ClassesExact(hash[i]);
      }
      if " " <= tail {
        assert tail == " " + tail[1..];
        assert IsKeyOf(key, hash, " " + tail[1..]);
      } else {
        assert tail == "\n " + tail[2..];
        assert IsKeyOf(key, hash, "\n " + tail[2..]);
      }
    }
  }

  predicate IsKeyOf(key: string, hash: string, tail: string) {
    && key == "nano:live " + hash + tail && |hash| == 64
    && forall i | 0 <= i < 64 :: hash[i] in "0123456789abcdefABCDEF"
  }
}
