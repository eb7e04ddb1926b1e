/** The references a turn collects: `_merge_references` and `_find_reference`. */
module References {
  import opened ByteStrings

  const MAX_REFERENCES := 20

  /** A ref as a string would spell it: `result:n`, or anything else. */
  datatype RefName = Numbered(n: nat) | Text(text: string)

  type ItemId = (string, string)

  /** Only what the engine looks at; an empty `openUrl` is none. */
  datatype Reference = Reference(ref: RefName, moduleId: string, itemId: string, playable: bool, openUrl: string)
  {
    function Item(): (r: ItemId) {
      (moduleId, itemId)
    }
  }

  /** Entry k is `result:k`, no item is listed twice, and there are at most twenty. */
  ghost predicate Stable(references: seq<Reference>) {
    && |references| <= MAX_REFERENCES
    && (forall k :: 0 <= k < |references| ==> references[k].ref == Numbered(k + 1))
    && (forall i, j :: 0 <= i < j < |references| ==> references[i].Item() != references[j].Item())
  }

  predicate Knows(references: seq<Reference>, item: ItemId) {
    exists k :: 0 <= k < |references| && references[k].Item() == item
  }

  /** The new items in the order they came, each once, numbered on from the end. */
  function Append(merged: seq<Reference>, found: seq<Reference>): (items: seq<Reference>)
    decreases |found|
  {
    if found == [] then merged
    else if Knows(merged, found[0].Item()) then Append(merged, found[1..])
    else Append(merged + [found[0].(ref := Numbered(|merged| + 1))], found[1..])
  }

  function Merge(existing: seq<Reference>, found: seq<Reference>): (items: seq<Reference>) {
    if found == [] then existing
    else
      var merged := Append(existing, found);
      merged[..Min(|merged|, MAX_REFERENCES)]
  }

  /** `_merge_references` */
  method MergeReferences(existing: seq<Reference>, found: seq<Reference>) returns (result: seq<Reference>)
    ensures result == Merge(existing, found)
  {
    if found == [] {
      return existing;
    }
    var known := set k | 0 <= k < |existing| :: existing[k].Item();
    var merged := existing;
    for i := 0 to |found|
      invariant forall item :: item in known <==> Knows(merged, item)
      invariant Append(existing, found) == Append(merged, found[i..])
    {
      assert found[i..][1..] == found[i + 1..];
      var reference := found[i];
      if reference.Item() in known {
        continue;
      }
      known := known + {reference.Item()};
      ghost var before := merged;
      merged := merged + [reference.(ref := Numbered(|merged| + 1))];
      KnowsMore(before, merged[|before|]);
    }
    return merged[..Min(|merged|, MAX_REFERENCES)];
  }

  lemma KnowsMore(merged: seq<Reference>, last: Reference)
    ensures forall item :: Knows(merged + [last], item) <==> Knows(merged, item) || item == last.Item()
  {
    forall item ensures Knows(merged + [last], item) <==> Knows(merged, item) || item == last.Item() {
      var more := merged + [last];
      if Knows(merged, item) {
        var k :| 0 <= k < |merged| && merged[k].Item() == item;
        assert more[k].Item() == item;
      }
      assert more[|merged|] == last;
    }
  }

  /** Every list that starts out numbered and without repeats stays so, without the bound. */
  ghost predicate Growing(references: seq<Reference>) {
    && (forall k :: 0 <= k < |references| ==> references[k].ref == Numbered(k + 1))
    && (forall i, j :: 0 <= i < j < |references| ==> references[i].Item() != references[j].Item())
  }

  lemma {:induction false} AppendGrows(merged: seq<Reference>, found: seq<Reference>)
    requires Growing(merged)
    ensures Growing(Append(merged, found)) && merged <= Append(merged, found)
    ensures forall r :: r in found ==> Knows(Append(merged, found), r.Item())
    decreases |found|
  {
    if found != [] {
      var next := if Knows(merged, found[0].Item()) then merged
                  else merged + [found[0].(ref := Numbered(|merged| + 1))];
      assert found == [found[0]] + found[1..];
      AppendGrows(next, found[1..]);
      if next != merged {
        assert next[|merged|].Item() == found[0].Item();
      }
      KnownStaysKnown(next, Append(next, found[1..]), found[0].Item());
    }
  }

  lemma KnownStaysKnown(a: seq<Reference>, b: seq<Reference>, item: ItemId)
    requires a <= b && Knows(a, item)
    ensures Knows(b, item)
  {
    var k :| 0 <= k < |a| && a[k].Item() == item;
    assert b[k].Item() == item;
  }

  /** Numbering is stable: the list only grows at its end, stays numbered 1, 2, ... without repeats and within
      twenty, and every found item is in it unless it is full. */
  lemma MergeIsStable(existing: seq<Reference>, found: seq<Reference>)
    requires Stable(existing)
    ensures var merged := Merge(existing, found);
            && Stable(merged) && existing <= merged
            && (forall r :: r in found ==> Knows(merged, r.Item()) || |merged| == MAX_REFERENCES)
  {
    AppendGrows(existing, found);
    var all, merged := Append(existing, found), Merge(existing, found);
    if |merged| < MAX_REFERENCES {
      assert merged == all;
    }
  }

  /** `_find_reference`: the first entry with that ref. */
  function Find(ref: RefName, references: seq<Reference>): (r: Option<Reference>)
    ensures r.Some? ==> r.value in references && r.value.ref == ref
  {
    if references == [] then None
    else if references[0].ref == ref then Some(references[0])
    else Find(ref, references[1..])
  }

  /** A ref that finds an entry finds the same one in every list that grows out of this one. */
  lemma {:induction false} FindGrows(ref: RefName, references: seq<Reference>, later: seq<Reference>)
    requires references <= later && Find(ref, references).Some?
    ensures Find(ref, later) == Find(ref, references)
  {
    if references[0].ref != ref {
      assert later[1..][..|references| - 1] == references[1..];
      FindGrows(ref, references[1..], later[1..]);
    }
  }

  lemma {:induction false} FindListed(references: seq<Reference>, k: nat)
    requires k < |references|
    ensures Find(references[k].ref, references).Some?
  {
    if k > 0 {
      FindListed(references[1..], k - 1);
    }
  }

  /** The refs a reference may carry: `result:1` to `result:20`. */
  predicate IsReferenceName(ref: RefName) {
    ref.Numbered? && 1 <= ref.n <= MAX_REFERENCES
  }

  /** What the validators ask of a list of references. */
  predicate WellNamed(references: seq<Reference>) {
    |references| <= MAX_REFERENCES && forall r :: r in references ==> IsReferenceName(r.ref)
  }

  lemma {:induction false} AppendNames(merged: seq<Reference>, found: seq<Reference>)
    ensures var all := Append(merged, found);
            merged <= all && forall k :: |merged| <= k < |all| ==> all[k].ref == Numbered(k + 1)
    decreases |found|
  {
    if found != [] {
      var next := if Knows(merged, found[0].Item()) then merged
                  else merged + [found[0].(ref := Numbered(|merged| + 1))];
      AppendNames(next, found[1..]);
    }
  }

  /** What is appended are found entries, each as it was found but for its number, and of two that are found for one
      item the first. */
  lemma {:induction false} AppendKeepsEntries(merged: seq<Reference>, found: seq<Reference>)
    ensures var all := Append(merged, found);
            forall k :: |merged| <= k < |all| ==> IsRenumbered(all[k], found, k + 1)
    decreases |found|
  {
    if found != [] {
      var known := Knows(merged, found[0].Item());
      var next := if known then merged else merged + [found[0].(ref := Numbered(|merged| + 1))];
      AppendKeepsEntries(next, found[1..]);
      AppendNames(next, found[1..]);
      var all := Append(merged, found);
      forall k | |merged| <= k < |all| ensures IsRenumbered(all[k], found, k + 1) {
        if k >= |next| {
          var m :| 0 <= m < |found[1..]| && all[k] == found[1..][m].(ref := Numbered(k + 1))
                   && forall n :: 0 <= n < m ==> found[1..][n].Item() != found[1..][m].Item();
          assert found[m + 1] == found[1..][m];
          KnownIsNotAppended(next, found[1..], k);
          assert found[0].Item() != found[m + 1].Item() by {
            if known {
              KnowsPrefix(merged, next, found[0].Item());
            } else {
              assert next[|merged|].Item() == found[0].Item();
            }
          }
          forall n | 0 <= n < m + 1 ensures found[n].Item() != found[m + 1].Item() {
            assert n > 0 ==> found[n] == found[1..][n - 1];
          }
        } else {
          assert all[k] == next[k] == found[0].(ref := Numbered(k + 1));
        }
      }
    }
  }

  lemma KnowsPrefix(a: seq<Reference>, b: seq<Reference>, item: ItemId)
    requires a <= b && Knows(a, item)
    ensures Knows(b, item)
  {
    KnownStaysKnown(a, b, item);
  }

  lemma {:induction false} KnownIsNotAppended(merged: seq<Reference>, found: seq<Reference>, k: nat)
    requires |merged| <= k < |Append(merged, found)|
    ensures !Knows(merged, Append(merged, found)[k].Item())
    decreases |found|
  {
    var next := if Knows(merged, found[0].Item()) then merged
                else merged + [found[0].(ref := Numbered(|merged| + 1))];
    AppendNames(next, found[1..]);
    if k >= |next| {
      KnownIsNotAppended(next, found[1..], k);
      if Knows(merged, Append(merged, found)[k].Item()) {
        KnownStaysKnown(merged, next, Append(merged, found)[k].Item());
      }
    } else {
      assert Append(merged, found)[k] == next[k];
    }
  }

  /** `r` is entry m of the list, the first of its item, under the number n. */
  ghost predicate IsRenumbered(r: Reference, found: seq<Reference>, n: nat) {
    exists m :: 0 <= m < |found| && r == found[m].(ref := Numbered(n))
                && forall l :: 0 <= l < m ==> found[l].Item() != found[m].Item()
  }

  /** The same for the list of a turn. */
  lemma MergeKeepsEntries(existing: seq<Reference>, found: seq<Reference>, k: nat)
    requires |existing| <= k < |Merge(existing, found)| && |existing| <= MAX_REFERENCES
    ensures IsRenumbered(Merge(existing, found)[k], found, k + 1)
  {
    AppendKeepsEntries(existing, found);
    AppendNames(existing, found);
  }

  /** Without any assumption on the numbering, merging keeps a list within its validator and at its beginning. */
  lemma MergeIsWellNamed(existing: seq<Reference>, found: seq<Reference>)
    requires WellNamed(existing)
    ensures WellNamed(Merge(existing, found)) && existing <= Merge(existing, found)
  {
    if found != [] {
      AppendNames(existing, found);
      var merged := Merge(existing, found);
      forall r | r in merged ensures IsReferenceName(r.ref) {
        var k :| 0 <= k < |merged| && merged[k] == r;
        assert k < |existing| ==> merged[k] == existing[k];
      }
    }
  }

  /** In a stable list `result:k` finds entry k and nothing else, so a ref once valid finds the same item for
      the rest of the turn. */
  lemma FindStable(ref: RefName, references: seq<Reference>, later: seq<Reference>)
    requires Stable(references) && Stable(later) && references <= later
    ensures Find(ref, references).Some? ==> Find(ref, later) == Find(ref, references)
    ensures Find(ref, references) == if ref.Numbered? && 1 <= ref.n <= |references|
            then Some(references[ref.n - 1]) else None
  {
    FindFrom(ref, references, 0);
    FindFrom(ref, later, 0);
    assert references[0..] == references && later[0..] == later;
  }

  lemma {:induction false} FindFrom(ref: RefName, references: seq<Reference>, k: nat)
    requires Growing(references) && k <= |references|
    ensures Find(ref, references[k..])
            == if ref.Numbered? && k + 1 <= ref.n <= |references| then Some(references[ref.n - 1]) else None
    decreases |references| - k
  {
    if k < |references| {
      assert references[k..][1..] == references[k + 1..];
      FindFrom(ref, references, k + 1);
    }
  }
}
