/** Forced-tag de-duplication as `SetTags` performs it: walk the requested
    tags in order and keep a tag only when it has not been kept already. */
module Tags {

  predicate NoDuplicates(s: seq<string>) {
    forall i, j :: 0 <= i < j < |s| ==> s[i] != s[j]
  }

  /** The tag list left after the de-duplicating walk over `tags`. Defined on
      the last element so that it follows the walk one step at a time. */
  function Dedup(tags: seq<string>): (r: seq<string>)
    ensures forall t :: t in r <==> t in tags
    ensures NoDuplicates(r)
    ensures |r| <= |tags|
  {
    if tags == [] then []
    else
      var init := tags[..|tags| - 1];
      var last := tags[|tags| - 1];
      assert tags == init + [last];
      var d := Dedup(init);
      if last in d then d else d + [last]
  }

  /** The position of the first occurrence of `t` in `s`. */
  function FirstIndex(s: seq<string>, t: string): (k: nat)
    requires t in s
    ensures k < |s| && s[k] == t
    ensures forall j :: 0 <= j < k ==> s[j] != t
  {
    if s[0] == t then 0 else 1 + FirstIndex(s[1..], t)
  }

  /** Appending a tag does not move the first occurrence of a tag already present. */
  lemma FirstIndexAppend(init: seq<string>, last: string, t: string)
    requires t in init
    ensures FirstIndex(init + [last], t) == FirstIndex(init, t) < |init|
  {
    var k := FirstIndex(init, t);
    var m := FirstIndex(init + [last], t);
    assert (init + [last])[k] == t;
    assert m <= k;
    assert init[m] == (init + [last])[m];
  }

  /** `s` lists tags of `tags` in the order of their first occurrence in `tags`. */
  ghost predicate InFirstOccurrenceOrder(tags: seq<string>, s: seq<string>) {
    && (forall t :: t in s ==> t in tags)
    && (forall i, j :: 0 <= i < j < |s| ==> FirstIndex(tags, s[i]) < FirstIndex(tags, s[j]))
  }

  /** De-duplication keeps first-occurrence order: a tag that comes earlier
      in the result first appeared earlier in the input. */
  lemma {:induction false} DedupKeepsFirstOccurrenceOrder(tags: seq<string>)
    ensures InFirstOccurrenceOrder(tags, Dedup(tags))
  {
    if tags != [] {
      var n := |tags| - 1;
      var init, last := tags[..n], tags[n];
      assert tags == init + [last];
      var d := Dedup(init);
      DedupKeepsFirstOccurrenceOrder(init);
      OrderSurvivesAppend(init, last, d);
      if last !in d {
        AppendNewTagKeepsOrder(init, last, d);
      }
    }
  }

  lemma OrderSurvivesAppend(init: seq<string>, last: string, d: seq<string>)
    requires InFirstOccurrenceOrder(init, d)
    ensures InFirstOccurrenceOrder(init + [last], d)
  {
    forall t | t in d ensures FirstIndex(init + [last], t) == FirstIndex(init, t) {
      FirstIndexAppend(init, last, t);
    }
  }

  lemma AppendNewTagKeepsOrder(init: seq<string>, last: string, d: seq<string>)
    requires InFirstOccurrenceOrder(init, d)
    requires last !in init
    ensures InFirstOccurrenceOrder(init + [last], d + [last])
  {
    var tags := init + [last];
    OrderSurvivesAppend(init, last, d);
    assert FirstIndex(tags, last) == |init| by {
      assert tags[|init|] == last;
    }
    forall t | t in d ensures FirstIndex(tags, t) < |init| {
      FirstIndexAppend(init, last, t);
    }
    var r := d + [last];
    forall i, j | 0 <= i < j < |r| ensures FirstIndex(tags, r[i]) < FirstIndex(tags, r[j]) {
      assert r[i] == d[i] && r[i] in d;
      if j < |d| {
        assert r[j] == d[j];
      }
    }
  }

  /** De-duplication is determined by its three properties: any duplicate-free
      list with the same tags, in first-occurrence order, equals it. */
  lemma {:induction false} DedupUnique(tags: seq<string>, other: seq<string>)
    requires forall t :: t in other <==> t in tags
    requires InFirstOccurrenceOrder(tags, other)
    ensures other == Dedup(tags)
  {
    DedupKeepsFirstOccurrenceOrder(tags);
    OrderedByFirstIndexEqual(tags, other, Dedup(tags));
  }

  /** The head of a list in first-occurrence order has the least first index. */
  lemma HeadFirst(tags: seq<string>, s: seq<string>, k: nat)
    requires InFirstOccurrenceOrder(tags, s) && 0 < k < |s|
    ensures s[0] in tags && s[k] in tags && FirstIndex(tags, s[0]) < FirstIndex(tags, s[k])
  {
  }

  lemma TailInOrder(tags: seq<string>, s: seq<string>)
    requires InFirstOccurrenceOrder(tags, s) && s != []
    ensures InFirstOccurrenceOrder(tags, s[1..])
  {
    forall i, j | 0 <= i < j < |s[1..]|
      ensures FirstIndex(tags, s[1..][i]) < FirstIndex(tags, s[1..][j])
    {
      assert s[1..][i] == s[i + 1] && s[1..][j] == s[j + 1];
    }
  }

  lemma HeadLeast(tags: seq<string>, s: seq<string>, k: nat)
    requires InFirstOccurrenceOrder(tags, s) && k < |s|
    ensures s[0] in tags && s[k] in tags && FirstIndex(tags, s[0]) <= FirstIndex(tags, s[k])
  {
    if k > 0 {
      HeadFirst(tags, s, k);
    }
  }

  /** Two non-empty lists holding the same tags, both in first-occurrence
      order, start with the same tag. */
  lemma SameHead(tags: seq<string>, a: seq<string>, b: seq<string>)
    requires forall t :: t in b <==> t in a
    requires InFirstOccurrenceOrder(tags, a) && InFirstOccurrenceOrder(tags, b)
    requires a != [] && b != []
    ensures a[0] == b[0]
  {
    var x, y := a[0], b[0];
    assert x in a && y in b;
    var ka :| 0 <= ka < |b| && b[ka] == x;
    var kb :| 0 <= kb < |a| && a[kb] == y;
    HeadLeast(tags, b, ka);
    HeadLeast(tags, a, kb);
    assert x == tags[FirstIndex(tags, x)] == tags[FirstIndex(tags, y)] == y;
  }

  /** Removing an equal head from two such lists leaves the same tags. */
  lemma SameTail(tags: seq<string>, a: seq<string>, b: seq<string>)
    requires forall t :: t in b <==> t in a
    requires InFirstOccurrenceOrder(tags, a) && InFirstOccurrenceOrder(tags, b)
    requires a != [] && b != [] && a[0] == b[0]
    ensures forall t :: t in b[1..] <==> t in a[1..]
  {
    forall t | t in b[1..] ensures t in a[1..] {
      var k :| 0 <= k < |b[1..]| && b[1..][k] == t;
      HeadFirst(tags, b, k + 1);
      assert t in a;
    }
    forall t | t in a[1..] ensures t in b[1..] {
      var k :| 0 <= k < |a[1..]| && a[1..][k] == t;
      HeadFirst(tags, a, k + 1);
      assert t in b;
    }
  }

  /** Two lists holding the same tags, both in first-occurrence order, are equal. */
  lemma {:induction false} OrderedByFirstIndexEqual(tags: seq<string>, a: seq<string>, b: seq<string>)
    requires forall t :: t in b <==> t in a
    requires InFirstOccurrenceOrder(tags, a) && InFirstOccurrenceOrder(tags, b)
    ensures a == b
    decreases |a|
  {
    if a != [] { var x := a[0]; assert x in a; }
    if b != [] { var x := b[0]; assert x in b; }
    if a != [] && b != [] {
      SameHead(tags, a, b);
      SameTail(tags, a, b);
      TailInOrder(tags, a);
      TailInOrder(tags, b);
      OrderedByFirstIndexEqual(tags, a[1..], b[1..]);
      assert a == [a[0]] + a[1..] && b == [b[0]] + b[1..];
    }
  }

  /** A list without repeats is in its own first-occurrence order. */
  lemma NoDuplicatesInOwnOrder(s: seq<string>)
    requires NoDuplicates(s)
    ensures InFirstOccurrenceOrder(s, s)
  {
    forall i | 0 <= i < |s| ensures FirstIndex(s, s[i]) == i {
      var k := FirstIndex(s, s[i]);
      assert s[k] == s[i];
    }
  }

  /** De-duplicating a de-duplicated list changes nothing, so setting the
      same tags twice stores the same list. */
  lemma DedupIdempotent(tags: seq<string>)
    ensures Dedup(Dedup(tags)) == Dedup(tags)
  {
    NoDuplicatesInOwnOrder(Dedup(tags));
    DedupUnique(Dedup(tags), Dedup(tags));
  }
}
