/**
 * Answers of a round and their classification (`groupAnswers`): answers are
 * bucketed by their key `answer.toLowerCase().trim()`, in order of first
 * appearance; a bucket of two or more is a duplicate group, a bucket of one
 * is a unique answer.
 */
module Grouping {
  import opened Wrappers
  import opened Text

  /** One entry of a room's `answers` record: who answered and the trimmed text. */
  datatype Answer = Answer(playerName: string, answer: string, playerId: string)

  /** A duplicate group as reported at the end of a round. */
  datatype DuplicateGroup = DuplicateGroup(answer: string, players: seq<Answer>, count: nat)

  /** The report: duplicate groups and unique answers. */
  datatype Groups = Groups(duplicates: seq<DuplicateGroup>, unique: seq<Answer>)

  /** One entry of the local `answerMap`: a key and the answers filed under it. */
  datatype Bucket = Bucket(key: string, members: seq<Answer>)

  /** The answers whose key is `k`, in submission order. */
  function WithKey(answers: seq<Answer>, k: string): (r: seq<Answer>)
    ensures |r| <= |answers|
    ensures forall x :: x in r <==> x in answers && Key(x.answer) == k
  {
    if answers == [] then []
    else
      var last := answers[|answers| - 1];
      WithKey(answers[..|answers| - 1], k) + (if Key(last.answer) == k then [last] else [])
  }

  /** The position of the bucket keyed `k` (`answerMap[key]`), or `|bs|` when there is none. */
  function FindBucket(bs: seq<Bucket>, k: string): (i: nat)
    ensures i <= |bs|
    ensures i < |bs| ==> bs[i].key == k
    ensures forall j | 0 <= j < i :: bs[j].key != k
  {
    if bs == [] then 0
    else if bs[0].key == k then 0
    else 1 + FindBucket(bs[1..], k)
  }

  /** One step of the first loop of `groupAnswers`: file `a` under its key. */
  function AddAnswer(bs: seq<Bucket>, a: Answer): seq<Bucket> {
    var k := Key(a.answer);
    var i := FindBucket(bs, k);
    if i < |bs| then bs[i := Bucket(k, bs[i].members + [a])]
    else bs + [Bucket(k, [a])]
  }

  /** No two buckets share a key. */
  ghost predicate KeysDistinct(bs: seq<Bucket>) {
    forall i, j | 0 <= i < j < |bs| :: bs[i].key != bs[j].key
  }

  /** Each bucket holds exactly the answers with its key, so none is empty. */
  ghost predicate MembersExact(bs: seq<Bucket>, answers: seq<Answer>) {
    forall i | 0 <= i < |bs| :: bs[i].members == WithKey(answers, bs[i].key) != []
  }

  /** Every answer has a bucket. */
  ghost predicate Covers(bs: seq<Bucket>, answers: seq<Answer>) {
    forall a | a in answers :: FindBucket(bs, Key(a.answer)) < |bs|
  }

  /** `bs` is the bucket list of `answers`. */
  ghost predicate BucketsFor(bs: seq<Bucket>, answers: seq<Answer>) {
    KeysDistinct(bs) && MembersExact(bs, answers) && Covers(bs, answers)
  }

  /** Appending an answer extends exactly the list of its own key. */
  lemma WithKeySnoc(answers: seq<Answer>, a: Answer, k: string)
    ensures WithKey(answers + [a], k) == WithKey(answers, k) + (if Key(a.answer) == k then [a] else [])
  {
    assert (answers + [a])[..|answers|] == answers;
  }

  /** A bucket keyed `k` at position `j` makes FindBucket succeed. */
  lemma {:induction false} FindBucketBound(bs: seq<Bucket>, k: string, j: int)
    requires 0 <= j < |bs| && bs[j].key == k
    ensures FindBucket(bs, k) < |bs|
  {
    if bs[0].key != k {
      FindBucketBound(bs[1..], k, j - 1);
    }
  }

  /** With no answer keyed `k`, the answers keyed `k` are none. */
  lemma {:induction false} WithKeyNone(answers: seq<Answer>, k: string)
    requires forall x | x in answers :: Key(x.answer) != k
    ensures WithKey(answers, k) == []
  {
    if answers != [] {
      WithKeyNone(answers[..|answers| - 1], k);
    }
  }

  /** Filing one more answer keeps the bucket list exact. */
  lemma {:induction false} AddAnswerKeepsBuckets(bs: seq<Bucket>, answers: seq<Answer>, a: Answer)
    requires BucketsFor(bs, answers)
    ensures BucketsFor(AddAnswer(bs, a), answers + [a])
  {
    AddAnswerKeepsKeysDistinct(bs, a);
    AddAnswerKeepsMembersExact(bs, answers, a);
    AddAnswerKeepsCovers(bs, answers, a);
  }

  /** Adding an answer never gives two buckets the same key. */
  lemma AddAnswerKeepsKeysDistinct(bs: seq<Bucket>, a: Answer)
    requires KeysDistinct(bs)
    ensures KeysDistinct(AddAnswer(bs, a))
  {
    var r := AddAnswer(bs, a);
    assert forall j | 0 <= j < |bs| :: r[j].key == bs[j].key;
  }

  /** After adding an answer, each bucket still holds exactly the answers with its key. */
  lemma AddAnswerKeepsMembersExact(bs: seq<Bucket>, answers: seq<Answer>, a: Answer)
    requires BucketsFor(bs, answers)
    ensures MembersExact(AddAnswer(bs, a), answers + [a])
  {
    var k := Key(a.answer);
    var r := AddAnswer(bs, a);
    if FindBucket(bs, k) == |bs| {
      forall x | x in answers ensures Key(x.answer) != k {
        assert Covers(bs, answers);
        assert FindBucket(bs, Key(x.answer)) < |bs|;
      }
      WithKeyNone(answers, k);
    }
    assert MembersExact(bs, answers);
    forall j | 0 <= j < |r| ensures r[j].members == WithKey(answers + [a], r[j].key) != [] {
      WithKeySnoc(answers, a, r[j].key);
    }
  }

  /** After adding an answer, every answer's key still has a bucket. */
  lemma AddAnswerKeepsCovers(bs: seq<Bucket>, answers: seq<Answer>, a: Answer)
    requires Covers(bs, answers)
    ensures Covers(AddAnswer(bs, a), answers + [a])
  {
    var k := Key(a.answer);
    var i := FindBucket(bs, k);
    var r := AddAnswer(bs, a);
    forall x | x in answers + [a] ensures FindBucket(r, Key(x.answer)) < |r| {
      var j := if x == a then i else FindBucket(bs, Key(x.answer));
      assert j < |r| && r[j].key == Key(x.answer);
      FindBucketBound(r, Key(x.answer), j);
    }
  }

  /** Filing the last answer completes the bucket list of all the answers. */
  lemma AddLastKeepsBuckets(bs: seq<Bucket>, answers: seq<Answer>)
    requires answers != [] && BucketsFor(bs, answers[..|answers| - 1])
    ensures BucketsFor(AddAnswer(bs, answers[|answers| - 1]), answers)
  {
    var prev, last := answers[..|answers| - 1], answers[|answers| - 1];
    assert prev + [last] == answers;
    AddAnswerKeepsBuckets(bs, prev, last);
  }

  /**
   * The `answerMap` the first loop of `groupAnswers` builds, its buckets in
   * order of the first appearance of their key (Entries gives the order in
   * which `Object.entries` lists them).
   */
  function Buckets(answers: seq<Answer>): (bs: seq<Bucket>)
    ensures BucketsFor(bs, answers)
  {
    if answers == [] then []
    else
      var bs := Buckets(answers[..|answers| - 1]);
      AddLastKeepsBuckets(bs, answers);
      AddAnswer(bs, answers[|answers| - 1])
  }

  // ---------------------------------------------------------------------------
  // The order in which `Object.entries(answerMap)` lists the buckets: keys
  // that are array indices come first, in ascending numeric order, then every
  // other key in insertion order.

  /** A decimal digit. */
  predicate IsDigit(c: char) {
    '0' <= c <= '9'
  }

  /** The value of a string of decimal digits. */
  function DecimalValue(s: string): nat
    requires forall i | 0 <= i < |s| :: IsDigit(s[i])
  {
    if s == [] then 0
    else
      assert IsDigit(s[|s| - 1]);
      DecimalValue(s[..|s| - 1]) * 10 + (s[|s| - 1] as int - '0' as int)
  }

  /**
   * An array index: the canonical decimal numeral (digits only, no leading
   * zero) of an integer from 0 to 2^32 - 2.
   */
  predicate IsArrayIndex(k: string) {
    && k != []
    && (forall i | 0 <= i < |k| :: IsDigit(k[i]))
    && (k[0] != '0' || |k| == 1)
    && DecimalValue(k) < 0xFFFF_FFFF
  }

  /** The number by which array-index keys are ordered; 0 for other keys. */
  function IndexValue(k: string): nat {
    if IsArrayIndex(k) then DecimalValue(k) else 0
  }

  /** The buckets keyed by an array index, in their order in `bs`. */
  function IndexBuckets(bs: seq<Bucket>): (r: seq<Bucket>)
    ensures forall x :: x in r <==> x in bs && IsArrayIndex(x.key)
  {
    if bs == [] then []
    else (if IsArrayIndex(bs[0].key) then [bs[0]] else []) + IndexBuckets(bs[1..])
  }

  /** The buckets keyed by anything else, in their order in `bs`. */
  function NamedBuckets(bs: seq<Bucket>): (r: seq<Bucket>)
    ensures forall x :: x in r <==> x in bs && !IsArrayIndex(x.key)
  {
    if bs == [] then []
    else (if IsArrayIndex(bs[0].key) then [] else [bs[0]]) + NamedBuckets(bs[1..])
  }

  /** Buckets listed by ascending index value. */
  predicate SortedByIndex(s: seq<Bucket>) {
    forall i, j | 0 <= i < j < |s| :: IndexValue(s[i].key) <= IndexValue(s[j].key)
  }

  /** `s` with `b` placed before its first bucket of larger index value. */
  function InsertByIndex(s: seq<Bucket>, b: Bucket): (r: seq<Bucket>)
    ensures |r| == |s| + 1
    ensures multiset(r) == multiset(s) + multiset{b}
    ensures forall x :: x in r <==> x in s || x == b
  {
    if s == [] || IndexValue(b.key) < IndexValue(s[0].key) then [b] + s
    else
      assert s == [s[0]] + s[1..];
      [s[0]] + InsertByIndex(s[1..], b)
  }

  /** `bs` sorted by ascending index value. */
  function SortByIndex(bs: seq<Bucket>): (r: seq<Bucket>)
    ensures |r| == |bs|
    ensures multiset(r) == multiset(bs)
    ensures forall x :: x in r <==> x in bs
  {
    if bs == [] then []
    else
      assert bs == [bs[0]] + bs[1..];
      InsertByIndex(SortByIndex(bs[1..]), bs[0])
  }

  /** The index buckets and the other buckets together are all the buckets. */
  lemma {:induction false} IndexNamedPartition(bs: seq<Bucket>)
    ensures multiset(IndexBuckets(bs)) + multiset(NamedBuckets(bs)) == multiset(bs)
  {
    if bs != [] {
      IndexNamedPartition(bs[1..]);
      assert bs == [bs[0]] + bs[1..];
    }
  }

  /** The buckets in the order `Object.entries(answerMap)` lists them: a permutation of `bs`. */
  function Entries(bs: seq<Bucket>): (r: seq<Bucket>)
    ensures multiset(r) == multiset(bs)
    ensures forall x :: x in r <==> x in bs
  {
    IndexNamedPartition(bs);
    SortByIndex(IndexBuckets(bs)) + NamedBuckets(bs)
  }

  /** Inserting into a sorted list keeps it sorted. */
  lemma {:induction false} InsertKeepsSorted(s: seq<Bucket>, b: Bucket)
    requires SortedByIndex(s)
    ensures SortedByIndex(InsertByIndex(s, b))
  {
    if s != [] && IndexValue(b.key) >= IndexValue(s[0].key) {
      var tail := InsertByIndex(s[1..], b);
      InsertKeepsSorted(s[1..], b);
      var r := [s[0]] + tail;
      forall i, j | 0 <= i < j < |r| ensures IndexValue(r[i].key) <= IndexValue(r[j].key) {
        assert r[j] == tail[j - 1];
        if i == 0 {
          assert tail[j - 1] in s[1..] || tail[j - 1] == b;
          if tail[j - 1] in s[1..] {
            var k :| 0 <= k < |s[1..]| && s[1..][k] == tail[j - 1];
            assert s[k + 1] == tail[j - 1];
          }
        } else {
          assert r[i] == tail[i - 1];
        }
      }
    }
  }

  /** SortByIndex lists the buckets by ascending index value. */
  lemma {:induction false} SortIsSorted(bs: seq<Bucket>)
    ensures SortedByIndex(SortByIndex(bs))
  {
    if bs != [] {
      SortIsSorted(bs[1..]);
      InsertKeepsSorted(SortByIndex(bs[1..]), bs[0]);
    }
  }

  /** A bucket whose key no later bucket has keeps the keys distinct. */
  lemma KeysDistinctCons(b: Bucket, rest: seq<Bucket>)
    requires KeysDistinct(rest) && forall x | x in rest :: x.key != b.key
    ensures KeysDistinct([b] + rest)
  {
    var r := [b] + rest;
    forall i, j | 0 <= i < j < |r| ensures r[i].key != r[j].key {
      assert r[j] == rest[j - 1];
      if i > 0 {
        assert r[i] == rest[i - 1];
      }
    }
  }

  /** The tail of a list with distinct keys has distinct keys and lacks the head's key. */
  lemma KeysDistinctTail(bs: seq<Bucket>)
    requires KeysDistinct(bs) && bs != []
    ensures KeysDistinct(bs[1..])
    ensures forall x | x in bs[1..] :: x.key != bs[0].key
  {
    forall x | x in bs[1..] ensures x.key != bs[0].key {
      var k :| 0 <= k < |bs[1..]| && bs[1..][k] == x;
      assert bs[k + 1] == x;
    }
  }

  /** Inserting a bucket with a new key keeps the keys distinct. */
  lemma {:induction false} InsertKeepsKeysDistinct(s: seq<Bucket>, b: Bucket)
    requires KeysDistinct(s) && forall x | x in s :: x.key != b.key
    ensures KeysDistinct(InsertByIndex(s, b))
  {
    if s == [] || IndexValue(b.key) < IndexValue(s[0].key) {
      KeysDistinctCons(b, s);
    } else {
      KeysDistinctTail(s);
      InsertKeepsKeysDistinct(s[1..], b);
      assert s[0] in s;
      KeysDistinctCons(s[0], InsertByIndex(s[1..], b));
    }
  }

  /** Sorting keeps the keys distinct. */
  lemma {:induction false} SortKeepsKeysDistinct(bs: seq<Bucket>)
    requires KeysDistinct(bs)
    ensures KeysDistinct(SortByIndex(bs))
  {
    if bs != [] {
      KeysDistinctTail(bs);
      SortKeepsKeysDistinct(bs[1..]);
      InsertKeepsKeysDistinct(SortByIndex(bs[1..]), bs[0]);
    }
  }

  /** Keeping the buckets keyed by an array index keeps the keys distinct. */
  lemma {:induction false} IndexBucketsKeysDistinct(bs: seq<Bucket>)
    requires KeysDistinct(bs)
    ensures KeysDistinct(IndexBuckets(bs))
  {
    if bs != [] {
      KeysDistinctTail(bs);
      IndexBucketsKeysDistinct(bs[1..]);
      if IsArrayIndex(bs[0].key) {
        KeysDistinctCons(bs[0], IndexBuckets(bs[1..]));
      }
    }
  }

  /** Keeping the buckets keyed otherwise keeps the keys distinct. */
  lemma {:induction false} NamedBucketsKeysDistinct(bs: seq<Bucket>)
    requires KeysDistinct(bs)
    ensures KeysDistinct(NamedBuckets(bs))
  {
    if bs != [] {
      KeysDistinctTail(bs);
      NamedBucketsKeysDistinct(bs[1..]);
      if !IsArrayIndex(bs[0].key) {
        KeysDistinctCons(bs[0], NamedBuckets(bs[1..]));
      }
    }
  }

  /** Joining two lists with distinct keys and no key in common keeps the keys distinct. */
  lemma KeysDistinctAppend(a: seq<Bucket>, c: seq<Bucket>)
    requires KeysDistinct(a) && KeysDistinct(c)
    requires forall x, y | x in a && y in c :: x.key != y.key
    ensures KeysDistinct(a + c)
  {
    var r := a + c;
    forall i, j | 0 <= i < j < |r| ensures r[i].key != r[j].key {
      if j >= |a| {
        assert r[j] == c[j - |a|];
        if i >= |a| {
          assert r[i] == c[i - |a|];
        } else {
          assert r[i] == a[i];
        }
      }
    }
  }

  /** Listing the buckets in entry order keeps the bucket list exact. */
  lemma EntriesKeepBuckets(bs: seq<Bucket>, answers: seq<Answer>)
    requires BucketsFor(bs, answers)
    ensures BucketsFor(Entries(bs), answers)
  {
    var r := Entries(bs);
    var ix := IndexBuckets(bs);
    IndexBucketsKeysDistinct(bs);
    SortKeepsKeysDistinct(ix);
    NamedBucketsKeysDistinct(bs);
    KeysDistinctAppend(SortByIndex(ix), NamedBuckets(bs));
    ReorderKeepsExact(bs, r, answers);
    ReorderKeepsCover(bs, r, answers);
  }

  /** A list holding only buckets of an exact list is exact too. */
  lemma ReorderKeepsExact(bs: seq<Bucket>, r: seq<Bucket>, answers: seq<Answer>)
    requires MembersExact(bs, answers) && forall x | x in r :: x in bs
    ensures MembersExact(r, answers)
  {
    forall i | 0 <= i < |r| ensures r[i].members == WithKey(answers, r[i].key) != [] {
      assert r[i] in r;
    }
  }

  /** A list holding every bucket of a covering list covers the answers too. */
  lemma ReorderKeepsCover(bs: seq<Bucket>, r: seq<Bucket>, answers: seq<Answer>)
    requires Covers(bs, answers) && forall x | x in bs :: x in r
    ensures Covers(r, answers)
  {
    forall a | a in answers ensures FindBucket(r, Key(a.answer)) < |r| {
      var k := FindBucket(bs, Key(a.answer));
      assert bs[k] in bs;
      var j :| 0 <= j < |r| && r[j] == bs[k];
      FindBucketBound(r, Key(a.answer), j);
    }
  }

  /**
   * The entry order: the buckets keyed by an array index come first, by
   * ascending index value, then the others in their order of first
   * appearance.
   */
  lemma EntriesOrder(bs: seq<Bucket>)
    ensures var r, n := Entries(bs), |IndexBuckets(bs)|;
      && n <= |r|
      && (forall i | 0 <= i < |r| :: IsArrayIndex(r[i].key) <==> i < n)
      && (forall i, j | 0 <= i < j < n :: IndexValue(r[i].key) <= IndexValue(r[j].key))
      && r[n..] == NamedBuckets(bs)
  {
    var ix := IndexBuckets(bs);
    var r, sorted := Entries(bs), SortByIndex(ix);
    SortIsSorted(ix);
    assert r[..|ix|] == sorted;
    forall i | 0 <= i < |r| ensures IsArrayIndex(r[i].key) <==> i < |ix| {
      if i < |ix| {
        assert r[i] == sorted[i] && sorted[i] in sorted;
      } else {
        assert r[i] == NamedBuckets(bs)[i - |ix|];
        assert r[i] in NamedBuckets(bs);
      }
    }
  }

  /** The duplicate group a bucket of two or more answers is reported as. */
  function GroupOf(b: Bucket): DuplicateGroup {
    DuplicateGroup(b.key, b.members, |b.members|)
  }

  /** No bucket is empty. */
  ghost predicate NonEmptyBuckets(bs: seq<Bucket>) {
    forall i | 0 <= i < |bs| :: bs[i].members != []
  }

  /** Every answer in a bucket has the bucket's key. */
  ghost predicate MembersKeyed(bs: seq<Bucket>) {
    forall i | 0 <= i < |bs| :: forall m | m in bs[i].members :: Key(m.answer) == bs[i].key
  }

  /** `d` is the group of some bucket of two or more answers. */
  ghost predicate DuplicateOf(d: DuplicateGroup, bs: seq<Bucket>) {
    exists i | 0 <= i < |bs| :: |bs[i].members| > 1 && d == GroupOf(bs[i])
  }

  /** `u` is the only answer of some bucket. */
  ghost predicate UniqueOf(u: Answer, bs: seq<Bucket>) {
    exists i | 0 <= i < |bs| :: bs[i].members == [u]
  }

  /**
   * The second loop of `groupAnswers`: each bucket of two or more becomes a
   * duplicate group, each bucket of one contributes its answer to `unique`.
   */
  function Split(bs: seq<Bucket>): (g: Groups)
    requires NonEmptyBuckets(bs)
  {
    if bs == [] then Groups([], [])
    else
      var b := bs[0];
      var rest := Split(bs[1..]);
      if |b.members| > 1 then Groups([GroupOf(b)] + rest.duplicates, rest.unique)
      else Groups(rest.duplicates, [b.members[0]] + rest.unique)
  }

  /**
   * Split reports nothing but buckets: each duplicate group is the group of
   * a bucket of two or more answers, each unique answer the only answer of
   * a bucket.
   */
  lemma {:induction false} SplitSound(bs: seq<Bucket>)
    requires NonEmptyBuckets(bs)
    ensures var g := Split(bs);
      && (forall d | d in g.duplicates :: DuplicateOf(d, bs))
      && (forall u | u in g.unique :: UniqueOf(u, bs))
  {
    if bs != [] {
      var tail := bs[1..];
      assert NonEmptyBuckets(tail);
      SplitSound(tail);
      var rest := Split(tail);
      forall d | d in rest.duplicates ensures DuplicateOf(d, bs) {
        assert DuplicateOf(d, tail);
        var i :| 0 <= i < |tail| && |tail[i].members| > 1 && d == GroupOf(tail[i]);
        assert bs[i + 1] == tail[i];
      }
      forall u | u in rest.unique ensures UniqueOf(u, bs) {
        assert UniqueOf(u, tail);
        var i :| 0 <= i < |tail| && tail[i].members == [u];
        assert bs[i + 1] == tail[i];
      }
      if |bs[0].members| > 1 {
        assert DuplicateOf(GroupOf(bs[0]), bs);
      } else {
        assert bs[0].members == [bs[0].members[0]];
        assert UniqueOf(bs[0].members[0], bs);
      }
    }
  }

  /**
   * Split reports every bucket: as a duplicate group when it holds two or
   * more answers, as a unique answer when it holds one.
   */
  lemma {:induction false} SplitComplete(bs: seq<Bucket>)
    requires NonEmptyBuckets(bs)
    ensures var g := Split(bs);
      && (forall i | 0 <= i < |bs| && |bs[i].members| > 1 :: GroupOf(bs[i]) in g.duplicates)
      && (forall i | 0 <= i < |bs| && |bs[i].members| == 1 :: bs[i].members[0] in g.unique)
  {
    if bs != [] {
      var tail := bs[1..];
      assert NonEmptyBuckets(tail);
      SplitComplete(tail);
      forall i | 0 < i < |bs| ensures bs[i] == tail[i - 1] {
      }
    }
  }

  /** No two duplicate groups share a key. */
  predicate GroupKeysDistinct(ds: seq<DuplicateGroup>) {
    forall i, j | 0 <= i < j < |ds| :: ds[i].answer != ds[j].answer
  }

  /** No two unique answers share a key. */
  predicate UniqueKeysDistinct(us: seq<Answer>) {
    forall i, j | 0 <= i < j < |us| :: Key(us[i].answer) != Key(us[j].answer)
  }

  /** Distinct bucket keys give distinct duplicate-group keys. */
  lemma {:induction false} SplitDuplicatesDistinct(bs: seq<Bucket>)
    requires NonEmptyBuckets(bs) && KeysDistinct(bs)
    ensures GroupKeysDistinct(Split(bs).duplicates)
  {
    if bs != [] {
      var b, tail := bs[0], bs[1..];
      assert NonEmptyBuckets(tail) && KeysDistinct(tail);
      SplitDuplicatesDistinct(tail);
      var rest := Split(tail).duplicates;
      if |b.members| > 1 {
        SplitSound(tail);
        forall d | d in rest ensures d.answer != b.key {
          assert DuplicateOf(d, tail);
          var i :| 0 <= i < |tail| && |tail[i].members| > 1 && d == GroupOf(tail[i]);
          assert tail[i] == bs[i + 1];
        }
        GroupKeysCons(GroupOf(b), rest);
      }
    }
  }

  /** A group whose key no later group has keeps the keys distinct. */
  lemma GroupKeysCons(d: DuplicateGroup, rest: seq<DuplicateGroup>)
    requires GroupKeysDistinct(rest) && forall e | e in rest :: e.answer != d.answer
    ensures GroupKeysDistinct([d] + rest)
  {
    var ds := [d] + rest;
    forall i, j | 0 <= i < j < |ds| ensures ds[i].answer != ds[j].answer {
      assert ds[j] == rest[j - 1];
      if i > 0 {
        assert ds[i] == rest[i - 1];
      }
    }
  }

  /** Distinct bucket keys, each shared by its members, give distinct unique-answer keys. */
  lemma {:induction false} SplitUniqueDistinct(bs: seq<Bucket>)
    requires NonEmptyBuckets(bs) && KeysDistinct(bs) && MembersKeyed(bs)
    ensures UniqueKeysDistinct(Split(bs).unique)
  {
    if bs != [] {
      var b, tail := bs[0], bs[1..];
      assert NonEmptyBuckets(tail) && KeysDistinct(tail) && MembersKeyed(tail);
      SplitUniqueDistinct(tail);
      var rest := Split(tail).unique;
      if |b.members| == 1 {
        SplitSound(tail);
        var u := b.members[0];
        assert Key(u.answer) == b.key;
        forall v | v in rest ensures Key(v.answer) != b.key {
          assert UniqueOf(v, tail);
          var i :| 0 <= i < |tail| && tail[i].members == [v];
          assert tail[i] == bs[i + 1];
          assert v in bs[i + 1].members;
        }
        UniqueKeysCons(u, rest);
      }
    }
  }

  /** An answer whose key no later answer has keeps the keys distinct. */
  lemma UniqueKeysCons(u: Answer, rest: seq<Answer>)
    requires UniqueKeysDistinct(rest) && forall v | v in rest :: Key(v.answer) != Key(u.answer)
    ensures UniqueKeysDistinct([u] + rest)
  {
    var us := [u] + rest;
    forall i, j | 0 <= i < j < |us| ensures Key(us[i].answer) != Key(us[j].answer) {
      assert us[j] == rest[j - 1];
      if i > 0 {
        assert us[i] == rest[i - 1];
      }
    }
  }

  /** Each key of `ks` has a bucket, and an earlier key an earlier one. */
  predicate InBucketOrder(bs: seq<Bucket>, ks: seq<string>) {
    && (forall i | 0 <= i < |ks| :: FindBucket(bs, ks[i]) < |bs|)
    && (forall i, j | 0 <= i < j < |ks| :: FindBucket(bs, ks[i]) < FindBucket(bs, ks[j]))
  }

  /** The keys of duplicate groups. */
  function GroupKeys(ds: seq<DuplicateGroup>): (r: seq<string>)
    ensures |r| == |ds| && forall i | 0 <= i < |ds| :: r[i] == ds[i].answer
  {
    seq(|ds|, i requires 0 <= i < |ds| => ds[i].answer)
  }

  /** The keys of answers. */
  function AnswerKeys(us: seq<Answer>): (r: seq<string>)
    ensures |r| == |us| && forall i | 0 <= i < |us| :: r[i] == Key(us[i].answer)
  {
    seq(|us|, i requires 0 <= i < |us| => Key(us[i].answer))
  }

  /** A key other than the first bucket's is found one place further on than in the rest. */
  lemma FindBucketPast(bs: seq<Bucket>, k: string)
    requires bs != [] && bs[0].key != k
    ensures FindBucket(bs, k) == 1 + FindBucket(bs[1..], k)
  {
  }

  /**
   * Keys in the order of the buckets after the first, none of them the first
   * bucket's key, are in order in the whole list too.
   */
  lemma InBucketOrderTail(bs: seq<Bucket>, ks: seq<string>)
    requires bs != [] && InBucketOrder(bs[1..], ks)
    requires forall i | 0 <= i < |ks| :: ks[i] != bs[0].key
    ensures InBucketOrder(bs, ks)
  {
    forall i | 0 <= i < |ks| {
      FindBucketPast(bs, ks[i]);
    }
  }

  /** ... and the first bucket's key may come before them. */
  lemma InBucketOrderCons(bs: seq<Bucket>, ks: seq<string>)
    requires bs != [] && InBucketOrder(bs[1..], ks)
    requires forall i | 0 <= i < |ks| :: ks[i] != bs[0].key
    ensures InBucketOrder(bs, [bs[0].key] + ks)
  {
    InBucketOrderTail(bs, ks);
    var r := [bs[0].key] + ks;
    assert FindBucket(bs, bs[0].key) == 0;
    forall i, j | 0 <= i < j < |r| ensures FindBucket(bs, r[i]) < FindBucket(bs, r[j]) {
      assert r[j] == ks[j - 1];
      if i > 0 {
        assert r[i] == ks[i - 1];
      }
    }
  }

  /** The groups split from the buckets after the first do not have the first bucket's key. */
  lemma LaterGroupKeys(bs: seq<Bucket>)
    requires bs != [] && NonEmptyBuckets(bs) && KeysDistinct(bs)
    ensures NonEmptyBuckets(bs[1..]) && KeysDistinct(bs[1..])
    ensures forall k | k in GroupKeys(Split(bs[1..]).duplicates) :: k != bs[0].key
  {
    var tail := bs[1..];
    assert NonEmptyBuckets(tail) && KeysDistinct(tail);
    SplitSound(tail);
    var rest := Split(tail).duplicates;
    forall i | 0 <= i < |rest| ensures rest[i].answer != bs[0].key {
      assert DuplicateOf(rest[i], tail);
      var k :| 0 <= k < |tail| && |tail[k].members| > 1 && rest[i] == GroupOf(tail[k]);
      assert tail[k] == bs[k + 1];
    }
  }

  /** The unique answers split from the buckets after the first do not have the first bucket's key. */
  lemma LaterAnswerKeys(bs: seq<Bucket>)
    requires bs != [] && NonEmptyBuckets(bs) && KeysDistinct(bs) && MembersKeyed(bs)
    ensures NonEmptyBuckets(bs[1..]) && KeysDistinct(bs[1..]) && MembersKeyed(bs[1..])
    ensures forall k | k in AnswerKeys(Split(bs[1..]).unique) :: k != bs[0].key
  {
    var tail := bs[1..];
    assert NonEmptyBuckets(tail) && KeysDistinct(tail) && MembersKeyed(tail);
    SplitSound(tail);
    var rest := Split(tail).unique;
    forall i | 0 <= i < |rest| ensures Key(rest[i].answer) != bs[0].key {
      assert UniqueOf(rest[i], tail);
      var k :| 0 <= k < |tail| && tail[k].members == [rest[i]];
      assert tail[k] == bs[k + 1];
      assert rest[i] in bs[k + 1].members;
    }
  }

  /** Split lists its duplicate groups in the order of their buckets. */
  lemma {:induction false} SplitGroupsInOrder(bs: seq<Bucket>)
    requires NonEmptyBuckets(bs) && KeysDistinct(bs)
    ensures InBucketOrder(bs, GroupKeys(Split(bs).duplicates))
  {
    if bs != [] {
      LaterGroupKeys(bs);
      SplitGroupsInOrder(bs[1..]);
      var ks := GroupKeys(Split(bs[1..]).duplicates);
      InBucketOrderTail(bs, ks);
      InBucketOrderCons(bs, ks);
      if |bs[0].members| > 1 {
        assert GroupKeys(Split(bs).duplicates) == [bs[0].key] + ks;
      } else {
        assert GroupKeys(Split(bs).duplicates) == ks;
      }
    }
  }

  /** Split lists its unique answers in the order of their buckets. */
  lemma {:induction false} SplitUniqueInOrder(bs: seq<Bucket>)
    requires NonEmptyBuckets(bs) && KeysDistinct(bs) && MembersKeyed(bs)
    ensures InBucketOrder(bs, AnswerKeys(Split(bs).unique))
  {
    if bs != [] {
      LaterAnswerKeys(bs);
      SplitUniqueInOrder(bs[1..]);
      var ks := AnswerKeys(Split(bs[1..]).unique);
      InBucketOrderTail(bs, ks);
      InBucketOrderCons(bs, ks);
      if |bs[0].members| > 1 {
        assert AnswerKeys(Split(bs).unique) == ks;
      } else {
        var u := bs[0].members[0];
        assert u in bs[0].members;
        assert AnswerKeys(Split(bs).unique) == [bs[0].key] + ks;
      }
    }
  }

  /**
   * `g` is a correct report on `answers`: every duplicate group holds all
   * the answers sharing its key (two or more, `count` being their number);
   * every unique answer is the only one with its key; no key is reported
   * twice; an answer is unique exactly when no other answer shares its key,
   * and otherwise there is a duplicate group for its key.
   */
  ghost predicate Reports(g: Groups, answers: seq<Answer>) {
    && (forall d | d in g.duplicates ::
          d.count == |d.players| >= 2 && d.players == WithKey(answers, d.answer))
    && (forall u | u in g.unique :: WithKey(answers, Key(u.answer)) == [u])
    && GroupKeysDistinct(g.duplicates)
    && UniqueKeysDistinct(g.unique)
    && (forall a | a in answers :: a in g.unique <==> |WithKey(answers, Key(a.answer))| == 1)
    && (forall a | a in answers :: |WithKey(answers, Key(a.answer))| >= 2 ==>
          exists d | d in g.duplicates :: d.answer == Key(a.answer))
  }

  /** Splitting the exact bucket list of `answers` yields a correct report. */
  lemma {:induction false} SplitReports(bs: seq<Bucket>, answers: seq<Answer>)
    requires BucketsFor(bs, answers)
    ensures NonEmptyBuckets(bs)
    ensures Reports(Split(bs), answers)
  {
    assert MembersExact(bs, answers);
    assert NonEmptyBuckets(bs);
    assert MembersKeyed(bs);
    SplitDuplicatesDistinct(bs);
    SplitUniqueDistinct(bs);
    SplitGroupsExact(bs, answers);
    SplitCoversAnswers(bs, answers);
  }

  /** Each group of the split holds exactly the answers with its key. */
  lemma SplitGroupsExact(bs: seq<Bucket>, answers: seq<Answer>)
    requires BucketsFor(bs, answers) && NonEmptyBuckets(bs)
    ensures var g := Split(bs);
      && (forall d | d in g.duplicates :: d.count == |d.players| >= 2 && d.players == WithKey(answers, d.answer))
      && (forall u | u in g.unique :: WithKey(answers, Key(u.answer)) == [u])
  {
    SplitSound(bs);
    var g := Split(bs);
    assert MembersExact(bs, answers);
    forall d | d in g.duplicates
      ensures d.count == |d.players| >= 2 && d.players == WithKey(answers, d.answer)
    {
      assert DuplicateOf(d, bs);
    }
    forall u | u in g.unique ensures WithKey(answers, Key(u.answer)) == [u] {
      assert UniqueOf(u, bs);
      var j :| 0 <= j < |bs| && bs[j].members == [u];
      assert u in bs[j].members;
    }
  }

  /** An answer is unique in the split exactly when it is alone with its key, and otherwise its key has a group. */
  lemma SplitCoversAnswers(bs: seq<Bucket>, answers: seq<Answer>)
    requires BucketsFor(bs, answers) && NonEmptyBuckets(bs)
    ensures var g := Split(bs);
      && (forall a | a in answers :: a in g.unique <==> |WithKey(answers, Key(a.answer))| == 1)
      && (forall a | a in answers :: |WithKey(answers, Key(a.answer))| >= 2 ==>
            exists d | d in g.duplicates :: d.answer == Key(a.answer))
  {
    forall a | a in answers
      ensures a in Split(bs).unique <==> |WithKey(answers, Key(a.answer))| == 1
      ensures |WithKey(answers, Key(a.answer))| >= 2 ==>
        exists d | d in Split(bs).duplicates :: d.answer == Key(a.answer)
    {
      SplitPlacesAnswer(bs, answers, a);
    }
  }

  /** Where the split puts one answer: with the unique ones when alone with its key, else in its key's group. */
  lemma SplitPlacesAnswer(bs: seq<Bucket>, answers: seq<Answer>, a: Answer)
    requires BucketsFor(bs, answers) && NonEmptyBuckets(bs) && a in answers
    ensures a in Split(bs).unique <==> |WithKey(answers, Key(a.answer))| == 1
    ensures |WithKey(answers, Key(a.answer))| >= 2 ==>
      exists d | d in Split(bs).duplicates :: d.answer == Key(a.answer)
  {
    UniqueIsAlone(bs, answers, a);
    SplitComplete(bs);
    var k := Key(a.answer);
    var i := KeyBucket(bs, answers, a);
    if |bs[i].members| == 1 {
      assert bs[i].members == [a];
    }
    if |bs[i].members| >= 2 {
      assert GroupOf(bs[i]) in Split(bs).duplicates;
    }
  }

  /** The bucket of an answer's key holds exactly the answers with that key, the answer among them. */
  lemma KeyBucket(bs: seq<Bucket>, answers: seq<Answer>, a: Answer) returns (i: nat)
    requires BucketsFor(bs, answers) && a in answers
    ensures i < |bs| && bs[i].key == Key(a.answer)
    ensures bs[i].members == WithKey(answers, Key(a.answer)) && a in bs[i].members
  {
    assert Covers(bs, answers) && MembersExact(bs, answers);
    i := FindBucket(bs, Key(a.answer));
  }

  /** An answer the split reports as unique is the only one with its key. */
  lemma UniqueIsAlone(bs: seq<Bucket>, answers: seq<Answer>, a: Answer)
    requires BucketsFor(bs, answers) && NonEmptyBuckets(bs)
    ensures a in Split(bs).unique ==> WithKey(answers, Key(a.answer)) == [a]
  {
    if a in Split(bs).unique {
      SplitSound(bs);
      assert UniqueOf(a, bs);
      var j :| 0 <= j < |bs| && bs[j].members == [a];
      assert MembersExact(bs, answers);
      assert a in WithKey(answers, bs[j].key);
    }
  }

  /**
   * `groupAnswers(answers)`, where `answers` lists a round's entries in
   * submission order: the buckets, listed in entry order, are split into
   * groups. The result is a correct report (see Reports).
   */
  function GroupAnswers(answers: seq<Answer>): (g: Groups)
    ensures Reports(g, answers)
  {
    var bs := Buckets(answers);
    EntriesKeepBuckets(bs, answers);
    SplitReports(Entries(bs), answers);
    Split(Entries(bs))
  }

  /**
   * Key `k` may be listed before key `l` by `Object.entries`: when `l` is an
   * array index, so is `k`, with an index no larger.
   */
  predicate EntryBefore(k: string, l: string) {
    IsArrayIndex(l) ==> IsArrayIndex(k) && IndexValue(k) <= IndexValue(l)
  }

  /**
   * GroupAnswers reports in entry order: among the duplicate groups, and
   * among the unique answers, array-index keys come before every other key
   * and in ascending order.
   */
  lemma GroupAnswersOrder(answers: seq<Answer>)
    ensures var g := GroupAnswers(answers);
      && (forall i, j | 0 <= i < j < |g.duplicates| :: EntryBefore(g.duplicates[i].answer, g.duplicates[j].answer))
      && (forall i, j | 0 <= i < j < |g.unique| :: EntryBefore(Key(g.unique[i].answer), Key(g.unique[j].answer)))
  {
    var bs := Buckets(answers);
    var es := Entries(bs);
    EntriesKeepBuckets(bs, answers);
    assert MembersExact(es, answers);
    assert NonEmptyBuckets(es) && MembersKeyed(es);
    SplitGroupsInOrder(es);
    SplitUniqueInOrder(es);
    var g := GroupAnswers(answers);
    assert g == Split(es);
    var dk, uk := GroupKeys(g.duplicates), AnswerKeys(g.unique);
    forall i, j | 0 <= i < j < |g.duplicates| ensures EntryBefore(g.duplicates[i].answer, g.duplicates[j].answer) {
      EntryPositions(es, bs, dk[i], dk[j]);
    }
    forall i, j | 0 <= i < j < |g.unique| ensures EntryBefore(Key(g.unique[i].answer), Key(g.unique[j].answer)) {
      EntryPositions(es, bs, uk[i], uk[j]);
    }
  }

  /** A key found earlier in the entry list of `bs` may be listed before one found later. */
  lemma EntryPositions(es: seq<Bucket>, bs: seq<Bucket>, k: string, l: string)
    requires es == Entries(bs)
    requires FindBucket(es, k) < FindBucket(es, l) < |es|
    ensures EntryBefore(k, l)
  {
    EntriesOrder(bs);
  }

  /**
   * Every answer of the round lands in exactly one group of a correct report
   * (such as GroupAnswers): either it is a unique answer, or it belongs to
   * the one duplicate group with its key.
   */
  lemma {:induction false} EveryAnswerInOneGroup(g: Groups, answers: seq<Answer>, a: Answer)
    requires Reports(g, answers) && a in answers
    ensures a in g.unique <==> !exists d | d in g.duplicates :: a in d.players
    ensures forall i, j | 0 <= i < |g.duplicates| && 0 <= j < |g.duplicates| &&
      a in g.duplicates[i].players && a in g.duplicates[j].players :: i == j
  {
    var k := Key(a.answer);
    var w := WithKey(answers, k);
    assert a in w;
    forall d | d in g.duplicates ensures a in d.players <==> d.answer == k {
      assert d.players == WithKey(answers, d.answer);
    }
    if a in g.unique {
      assert w == [a];
      forall d | d in g.duplicates ensures d.answer != k {
        assert d.answer == k ==> |d.players| == 1;
      }
    } else {
      assert |w| >= 2;
      var d :| d in g.duplicates && d.answer == k;
      assert a in d.players;
    }
  }

  /** Two different answers share a group of a correct report exactly when their keys agree. */
  lemma {:induction false} SameGroupIffSameKey(g: Groups, answers: seq<Answer>, a: Answer, b: Answer)
    requires Reports(g, answers) && a in answers && b in answers && a != b
    ensures (exists d | d in g.duplicates :: a in d.players && b in d.players)
      <==> Key(a.answer) == Key(b.answer)
  {
    var k := Key(a.answer);
    forall d | d in g.duplicates
      ensures a in d.players ==> d.answer == k
      ensures b in d.players ==> d.answer == Key(b.answer)
    {
      assert d.players == WithKey(answers, d.answer);
    }
    if Key(b.answer) == k {
      var w := WithKey(answers, k);
      assert |w| >= 2 by {
        assert a in w && b in w;
        var ia :| 0 <= ia < |w| && w[ia] == a;
        var ib :| 0 <= ib < |w| && w[ib] == b;
        assert ia != ib;
      }
      var d :| d in g.duplicates && d.answer == k;
      assert d.players == w;
      assert a in d.players && b in d.players;
    }
  }

  /** Three answers "cat", "Cat" and "dog": one duplicate group of two, one unique answer. */
  lemma CatsAndDogExample()
    ensures var a, b, c := Answer("A", "cat", "a"), Answer("B", "Cat", "b"), Answer("C", "dog", "c");
      var g := GroupAnswers([a, b, c]);
      && g.duplicates == [DuplicateGroup("cat", [a, b], 2)]
      && g.unique == [c]
  {
    var a, b, c := Answer("A", "cat", "a"), Answer("B", "Cat", "b"), Answer("C", "dog", "c");
    var bs := [Bucket("cat", [a, b]), Bucket("dog", [c])];
    ExampleBuckets(a, b, c);
    NamedKeysFirst([a, b], [c]);
    CatsAndDogSplit(a, b, c);
    assert GroupAnswers([a, b, c]) == Split(Entries(Buckets([a, b, c])));
  }

  /**
   * Player A answers "1", then player B answers "0": both answers are unique,
   * and B's is listed first because "0" is the smaller array index.
   */
  lemma NumbersFirstExample()
    ensures var a, b := Answer("A", "1", "a"), Answer("B", "0", "b");
      GroupAnswers([a, b]) == Groups([], [b, a])
  {
    var a, b := Answer("A", "1", "a"), Answer("B", "0", "b");
    NumbersBuckets(a, b);
    NumbersEntries([a], [b]);
    SinglesSplit(b, a);
    assert GroupAnswers([a, b]) == Split(Entries(Buckets([a, b])));
  }

  /** Two buckets of one answer each split into two unique answers, in bucket order. */
  lemma SinglesSplit(x: Answer, y: Answer)
    ensures Split([Bucket("0", [x]), Bucket("1", [y])]) == Groups([], [x, y])
  {
    var es := [Bucket("0", [x]), Bucket("1", [y])];
    assert Split(es[1..]) == Groups([], [y]);
  }

  /** The example's buckets split into the "cat" group and the unique "dog" answer. */
  lemma CatsAndDogSplit(a: Answer, b: Answer, c: Answer)
    ensures Split([Bucket("cat", [a, b]), Bucket("dog", [c])]) == Groups([DuplicateGroup("cat", [a, b], 2)], [c])
  {
    var bs := [Bucket("cat", [a, b]), Bucket("dog", [c])];
    assert Split(bs[1..]) == Groups([], [c]);
  }

  /** The answers "1" then "0" fill the buckets "1" and "0", in that order. */
  lemma NumbersBuckets(a: Answer, b: Answer)
    requires a.answer == "1" && b.answer == "0"
    ensures Buckets([a, b]) == [Bucket("1", [a]), Bucket("0", [b])]
  {
    var one := Bucket("1", [a]);
    NumeralKeys();
    BucketsSnoc([], a, []);
    assert [] + [a] == [a];
    assert Buckets([a]) == [one];
    BucketsSnoc([a], b, [one]);
    assert [a] + [b] == [a, b];
    assert FindBucket([one], "0") == 1;
  }

  /** The buckets "1" then "0" are listed as "0" then "1". */
  lemma NumbersEntries(ones: seq<Answer>, zeros: seq<Answer>)
    ensures var one, zero := Bucket("1", ones), Bucket("0", zeros);
      Entries([one, zero]) == [zero, one]
  {
    var one, zero := Bucket("1", ones), Bucket("0", zeros);
    NumeralKeys();
    assert IndexBuckets([zero]) == [zero] && IndexBuckets([one, zero]) == [one, zero];
    assert NamedBuckets([zero]) == [] && NamedBuckets([one, zero]) == [];
    assert SortByIndex([zero]) == [zero];
    assert InsertByIndex([zero], one) == [zero, one];
  }

  /** "1" and "0" are their own keys, and array indices of value 1 and 0. */
  lemma NumeralKeys()
    ensures Key("1") == "1" && Key("0") == "0"
    ensures IsArrayIndex("1") && IndexValue("1") == 1
    ensures IsArrayIndex("0") && IndexValue("0") == 0
  {
    assert Lower("1") == "1" && Lower("0") == "0";
    assert TrimStart("1") == "1" && TrimEnd("1") == "1";
    assert TrimStart("0") == "0" && TrimEnd("0") == "0";
    assert "1"[..0] == "" && "0"[..0] == "";
    assert DecimalValue("1") == 1 && DecimalValue("0") == 0;
  }

  /** Buckets keyed "cat" and "dog", which are not array indices, keep their order. */
  lemma NamedKeysFirst(cats: seq<Answer>, dogs: seq<Answer>)
    ensures var bs := [Bucket("cat", cats), Bucket("dog", dogs)];
      Entries(bs) == bs
  {
    var bs := [Bucket("cat", cats), Bucket("dog", dogs)];
    assert !IsDigit('c') && !IsDigit('d');
    assert !IsArrayIndex("cat") && !IsArrayIndex("dog");
    assert IndexBuckets(bs[1..]) == [] && NamedBuckets(bs[1..]) == bs[1..];
    assert IndexBuckets(bs) == [] && NamedBuckets(bs) == bs;
  }

  /** The bucket list of the three example answers, built one answer at a time. */
  lemma ExampleBuckets(a: Answer, b: Answer, c: Answer)
    requires a.answer == "cat" && b.answer == "Cat" && c.answer == "dog"
    ensures Buckets([a, b, c]) == [Bucket("cat", [a, b]), Bucket("dog", [c])]
  {
    ExampleBucketsTwo(a, b);
    ExampleKeys();
    var cats := Bucket("cat", [a, b]);
    BucketsSnoc([a, b], c, [cats]);
    assert [a, b] + [c] == [a, b, c];
    AddNewKey([cats], c);
  }

  /** The bucket list of the first two example answers. */
  lemma ExampleBucketsTwo(a: Answer, b: Answer)
    requires a.answer == "cat" && b.answer == "Cat"
    ensures Buckets([a, b]) == [Bucket("cat", [a, b])]
  {
    ExampleKeys();
    SingleBucket(a);
    BucketsSnoc([a], b, [Bucket("cat", [a])]);
    assert [a] + [b] == [a, b];
    AddToOnlyBucket(Bucket("cat", [a]), b);
  }

  /** One answer fills one bucket under its key. */
  lemma SingleBucket(a: Answer)
    ensures Buckets([a]) == [Bucket(Key(a.answer), [a])]
  {
    assert [a][..0] == [];
    assert Buckets([a]) == AddAnswer([], a);
  }

  /** An answer whose key is the only bucket's joins that bucket. */
  lemma AddToOnlyBucket(b: Bucket, x: Answer)
    requires b.key == Key(x.answer)
    ensures AddAnswer([b], x) == [Bucket(b.key, b.members + [x])]
  {
    assert FindBucket([b], b.key) == 0;
  }

  /** An answer with a key no bucket has opens a new bucket at the end. */
  lemma AddNewKey(bs: seq<Bucket>, x: Answer)
    requires forall i | 0 <= i < |bs| :: bs[i].key != Key(x.answer)
    ensures AddAnswer(bs, x) == bs + [Bucket(Key(x.answer), [x])]
  {
    FindBucketAbsent(bs, Key(x.answer));
  }

  /** A key no bucket has is not found. */
  lemma {:induction false} FindBucketAbsent(bs: seq<Bucket>, k: string)
    requires forall i | 0 <= i < |bs| :: bs[i].key != k
    ensures FindBucket(bs, k) == |bs|
  {
    if bs != [] {
      FindBucketAbsent(bs[1..], k);
    }
  }

  /** Buckets of one more answer, from the buckets of the ones before. */
  lemma BucketsSnoc(answers: seq<Answer>, x: Answer, bs: seq<Bucket>)
    requires Buckets(answers) == bs
    ensures Buckets(answers + [x]) == AddAnswer(bs, x)
  {
    assert answers + [x] != [];
    assert (answers + [x])[..|answers|] == answers;
  }

  /** The keys of the three example answers. */
  lemma ExampleKeys()
    ensures Key("cat") == "cat" && Key("Cat") == "cat" && Key("dog") == "dog"
  {
    CaseAndSpaceExample();
    assert Lower("Cat") == "cat";
    assert Lower("dog") == "dog";
    assert TrimStart("dog") == "dog";
    assert TrimEnd("dog") == "dog";
  }

  // ---------------------------------------------------------------------------
  // `groupAnswers` as written: `answerMap` is a plain object literal, so a key
  // that names a property of Object.prototype already reads as a (truthy)
  // inherited value, and `answerMap[key].push(ans)` then throws a TypeError.

  /**
   * The properties a plain object inherits from Object.prototype whose names
   * are all lower case. A key is lower-cased, so the other inherited names
   * ("hasOwnProperty", "toString", "valueOf", ...) can never be keys.
   */
  const InheritedKeys: set<string> := {"constructor", "__proto__"}

  /** The first loop of `groupAnswers` as written; `None` when it throws. */
  function BucketsAsWritten(answers: seq<Answer>): (r: Option<seq<Bucket>>)
    ensures r.Some? ==> r.value == Buckets(answers)
    ensures r.None? <==> exists a | a in answers :: Key(a.answer) in InheritedKeys
  {
    if answers == [] then Some([])
    else
      var prev := answers[..|answers| - 1];
      var last := answers[|answers| - 1];
      assert prev + [last] == answers;
      match BucketsAsWritten(prev)
      case None => None
      case Some(bs) =>
        var k := Key(last.answer);
        assert FindBucket(bs, k) < |bs| ==> k !in InheritedKeys by {
          if FindBucket(bs, k) < |bs| {
            var x := bs[FindBucket(bs, k)].members[0];
            assert x in WithKey(prev, k);
          }
        }
        if FindBucket(bs, k) < |bs| then Some(AddAnswer(bs, last))
        else if k in InheritedKeys then None
        else Some(AddAnswer(bs, last))
  }

  /** `groupAnswers` as written: it agrees with GroupAnswers unless some key is inherited. */
  function GroupAnswersAsWritten(answers: seq<Answer>): (r: Option<Groups>)
    ensures r.None? <==> exists a | a in answers :: Key(a.answer) in InheritedKeys
    ensures r.Some? ==> r.value == GroupAnswers(answers)
  {
    match BucketsAsWritten(answers)
    case None => None
    case Some(bs) => Some(Split(Entries(bs)))
  }

  /** A single player answering "Constructor", whatever their name and id, makes the written grouping throw. */
  lemma ConstructorAnswerThrows(name: string, id: string)
    ensures GroupAnswersAsWritten([Answer(name, "Constructor", id)]) == None
  {
    var a := Answer(name, "Constructor", id);
    ConstructorKey();
    assert a in [a] && Key(a.answer) in InheritedKeys;
  }

  /** "Constructor" has the key "constructor". */
  lemma ConstructorKey()
    ensures Key("Constructor") == "constructor"
  {
    assert Lower("Constructor") == "constructor";
    assert TrimStart("constructor") == "constructor";
    assert TrimEnd("constructor") == "constructor";
  }
}
