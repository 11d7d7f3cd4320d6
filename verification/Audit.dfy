/** The audit log's hash chain, over any hash function with fixed-length output. */
module Audit {
  import opened Wrappers

  type Text = string

  /** The hash of the serialized entries, as hexadecimal text. */
  type Hash = Text -> Text

  predicate IsHexDigit(c: char) {
    '0' <= c <= '9' || 'a' <= c <= 'f'
  }

  /** Every digest consists of `size` hexadecimal digits. */
  ghost predicate FixedSize(h: Hash, size: nat) {
    size > 0 && forall t :: |h(t)| == size && forall i :: 0 <= i < size ==> IsHexDigit(h(t)[i])
  }

  /** A serialized entry is the text of a JSON object. */
  predicate IsObjectText(t: Text) {
    t != [] && t[0] == '{'
  }

  predicate AreEntries(entries: seq<Text>) {
    forall i :: 0 <= i < |entries| ==> IsObjectText(entries[i])
  }

  /** The text whose hash is the chain value after the last of `entries`: the first entry's own text, or
      the previous chain value followed by the last entry's digest. */
  function ChainInput(h: Hash, entries: seq<Text>): Text
    requires entries != []
  {
    var n := |entries| - 1;
    if n == 0 then entries[0] else h(ChainInput(h, entries[..n])) + h(entries[n])
  }

  function ChainHash(h: Hash, entries: seq<Text>): Option<Text> {
    if entries == [] then None else Some(h(ChainInput(h, entries)))
  }

  /** All the texts hashed while logging `entries`. */
  function Hashed(h: Hash, entries: seq<Text>): set<Text> {
    if entries == [] then {}
    else
      var n := |entries| - 1;
      Hashed(h, entries[..n]) + {entries[n], ChainInput(h, entries)}
  }

  /** Two different texts with the same digest, one hashed for each log. */
  ghost predicate Collision(h: Hash, a: seq<Text>, b: seq<Text>, x: Text, y: Text) {
    x in Hashed(h, a) && y in Hashed(h, b) && x != y && h(x) == h(y)
  }

  ghost predicate Collide(h: Hash, a: seq<Text>, b: seq<Text>) {
    exists x, y :: Collision(h, a, b, x, y)
  }

  lemma CollisionGrows(h: Hash, a: seq<Text>, b: seq<Text>, m: nat, n: nat)
    requires m < |a| && n < |b| && m == |a| - 1 && n == |b| - 1 && Collide(h, a[..m], b[..n])
    ensures Collide(h, a, b)
  {
    var x, y :| Collision(h, a[..m], b[..n], x, y);
    InputsAreHashed(h, a);
    InputsAreHashed(h, b);
    assert Collision(h, a, b, x, y);
  }

  lemma InputsAreHashed(h: Hash, entries: seq<Text>)
    requires entries != []
    ensures var n := |entries| - 1;
            && Hashed(h, entries[..n]) <= Hashed(h, entries) && entries[n] in Hashed(h, entries)
            && ChainInput(h, entries) in Hashed(h, entries)
            && (n > 0 ==> ChainInput(h, entries[..n]) in Hashed(h, entries))
  {
  }

  /** A chained text never looks like an entry. */
  lemma ChainedIsNoEntry(h: Hash, size: nat, entries: seq<Text>)
    requires FixedSize(h, size) && |entries| > 1
    ensures !IsObjectText(ChainInput(h, entries)) && |ChainInput(h, entries)| == 2 * size
  {
    var n := |entries| - 1;
    var previous := h(ChainInput(h, entries[..n]));
    assert IsHexDigit(previous[0]);
    assert ChainInput(h, entries)[0] == previous[0];
  }

  lemma ChainedParts(h: Hash, size: nat, entries: seq<Text>)
    requires FixedSize(h, size) && |entries| > 1
    ensures var n, t := |entries| - 1, ChainInput(h, entries);
            |t| == 2 * size && t[..size] == h(ChainInput(h, entries[..n])) && t[size..] == h(entries[n])
  {
    ChainedIsNoEntry(h, size, entries);
    var n := |entries| - 1;
    assert |h(ChainInput(h, entries[..n]))| == size;
  }

  /** Equal chain inputs mean equal logs, unless a collision turned up on the way. */
  lemma {:induction false} EqualInputsEqualLogs(h: Hash, size: nat, a: seq<Text>, b: seq<Text>)
    requires FixedSize(h, size) && AreEntries(a) && AreEntries(b) && a != [] && b != []
    requires ChainInput(h, a) == ChainInput(h, b)
    ensures a == b || Collide(h, a, b)
  {
    hide Collide, Hashed;
    if |a| == 1 && |b| == 1 {
    } else if |a| == 1 {
      ChainedIsNoEntry(h, size, b);
    } else if |b| == 1 {
      ChainedIsNoEntry(h, size, a);
    } else {
      var m, n := |a| - 1, |b| - 1;
      LastLinkEqual(h, size, a, b);
      if !Collide(h, a, b) {
        EqualInputsEqualLogs(h, size, a[..m], b[..n]);
        if Collide(h, a[..m], b[..n]) {
          CollisionGrows(h, a, b, m, n);
        }
        assert a == a[..m] + [a[m]] && b == b[..n] + [b[n]];
      }
    }
  }

  /** Two equal chained texts have the same last entry and the same text before it, or a collision. */
  lemma LastLinkEqual(h: Hash, size: nat, a: seq<Text>, b: seq<Text>)
    requires FixedSize(h, size) && |a| > 1 && |b| > 1 && ChainInput(h, a) == ChainInput(h, b)
    ensures var m, n := |a| - 1, |b| - 1;
            Collide(h, a, b) || (a[m] == b[n] && ChainInput(h, a[..m]) == ChainInput(h, b[..n]))
  {
    hide ChainInput, Hashed, FixedSize;
    var m, n := |a| - 1, |b| - 1;
    var p, q := ChainInput(h, a[..m]), ChainInput(h, b[..n]);
    ChainedParts(h, size, a);
    ChainedParts(h, size, b);
    InputsAreHashed(h, a);
    InputsAreHashed(h, b);
    if p != q {
      assert Collision(h, a, b, p, q);
    }
    if a[m] != b[n] {
      assert Collision(h, a, b, a[m], b[n]);
    }
  }

  /** The last chain value determines the whole log, its length included: two logs end on the same value
      only if they are equal or a hash collision between them can be exhibited. */
  lemma ChainDeterminesLog(h: Hash, size: nat, a: seq<Text>, b: seq<Text>)
    requires FixedSize(h, size) && AreEntries(a) && AreEntries(b)
    requires ChainHash(h, a) == ChainHash(h, b)
    ensures a == b || Collide(h, a, b)
  {
    if a != [] && b != [] {
      var x, y := ChainInput(h, a), ChainInput(h, b);
      if x == y {
        EqualInputsEqualLogs(h, size, a, b);
      } else {
        assert Collision(h, a, b, x, y);
      }
    }
  }

  datatype Record = Record(entry: Text, contentHash: Text, chainHash: Text)

  class AuditLogger {
    const hash: Hash
    var chainHash: Option<Text>
    /** What storage has accepted. */
    var stored: seq<Record>
    ghost var entries: seq<Text>

    constructor (hash: Hash)
      ensures this.hash == hash && entries == [] && stored == [] && Valid()
    {
      this.hash := hash;
      chainHash, stored, entries := None, [], [];
    }

    /** The chain value covers all logged entries, and each stored record carries the value of its moment. */
    ghost predicate Valid()
      reads this
    {
      && chainHash == ChainHash(hash, entries)
      && |stored| == |entries|
      && forall i :: 0 <= i < |stored| ==>
           stored[i].entry == entries[i] && stored[i].contentHash == hash(entries[i])
           && Some(stored[i].chainHash) == ChainHash(hash, entries[..i + 1])
    }

    method Log(entry: Text) returns (recordId: Text)
      requires Valid()
      modifies this
      ensures Valid() && entries == old(entries) + [entry]
      ensures stored == old(stored) + [Record(entry, hash(entry), recordId)] && chainHash == Some(recordId)
      ensures recordId == if old(chainHash).None? then hash(entry) else hash(old(chainHash).value + hash(entry))
    {
      var contentHash := hash(entry);
      ghost var entries' := entries + [entry];
      assert entries'[..|entries|] == entries;
      if chainHash.Some? {
        chainHash := Some(hash(chainHash.value + contentHash));
      } else {
        chainHash := Some(contentHash);
      }
      assert chainHash == ChainHash(hash, entries');
      recordId := chainHash.value;
      forall i | 0 <= i < |stored| ensures Some(stored[i].chainHash) == ChainHash(hash, entries'[..i + 1]) {
        assert entries'[..i + 1] == entries[..i + 1];
      }
      assert entries'[..|entries| + 1] == entries';
      stored := stored + [Record(entry, contentHash, recordId)];
      entries := entries';
    }
  }
}
