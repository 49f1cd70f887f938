/** The two upload collections (exam pages and student pages). A selection
    is appended and then de-duplicated on the (name, size) key, keeping the
    first occurrence of each key; a removal drops one position. */
module Uploads {
  import opened Types

  /** The keys present in a collection. */
  function KeysOf(s: seq<File>): set<(string, int)> {
    set i | 0 <= i < |s| :: Key(s[i])
  }

  /** No two entries of a collection share a key. */
  predicate DistinctKeys(s: seq<File>) {
    forall i, j :: 0 <= i < j < |s| ==> Key(s[i]) != Key(s[j])
  }

  /** The first position holding the key, or -1 when none does. */
  function FindIndex(s: seq<File>, k: (string, int)): (r: int)
    ensures -1 <= r < |s|
    ensures r == -1 <==> forall i :: 0 <= i < |s| ==> Key(s[i]) != k
    ensures r >= 0 ==> Key(s[r]) == k && forall i :: 0 <= i < r ==> Key(s[i]) != k
  {
    if |s| == 0 then -1
    else if Key(s[0]) == k then 0
    else
      var r := FindIndex(s[1..], k);
      assert forall i :: 1 <= i < |s| ==> s[1..][i - 1] == s[i];
      if r == -1 then -1 else r + 1
  }

  /** Reference definition of de-duplication: walk the list and keep an
      entry exactly when no earlier entry has its key. */
  function KeepFirst(s: seq<File>): seq<File> {
    if |s| == 0 then []
    else if Key(s[|s| - 1]) in KeysOf(s[..|s| - 1]) then KeepFirst(s[..|s| - 1])
    else KeepFirst(s[..|s| - 1]) + [s[|s| - 1]]
  }

  /** Appending one entry adds exactly its key. */
  lemma KeysOfSnoc(s: seq<File>, f: File)
    ensures KeysOf(s + [f]) == KeysOf(s) + {Key(f)}
  {
    forall k | k in KeysOf(s + [f]) ensures k in KeysOf(s) + {Key(f)} {
      var i :| 0 <= i < |s| + 1 && Key((s + [f])[i]) == k;
      if i < |s| { assert (s + [f])[i] == s[i]; }
    }
    forall k | k in KeysOf(s) ensures k in KeysOf(s + [f]) {
      var i :| 0 <= i < |s| && Key(s[i]) == k;
      assert (s + [f])[i] == s[i];
    }
    assert (s + [f])[|s|] == f;
  }

  /** De-duplication leaves no two entries with one key, loses no key, and
      invents no entry. */
  lemma {:induction false} KeepFirstContract(s: seq<File>)
    ensures DistinctKeys(KeepFirst(s))
    ensures KeysOf(KeepFirst(s)) == KeysOf(s)
    ensures forall i :: 0 <= i < |KeepFirst(s)| ==> KeepFirst(s)[i] in s
  {
    if |s| > 0 {
      var init := s[..|s| - 1];
      var last := s[|s| - 1];
      var d := KeepFirst(init);
      KeepFirstContract(init);
      assert s == init + [last];
      KeysOfSnoc(init, last);
      if Key(last) !in KeysOf(init) {
        KeysOfSnoc(d, last);
        assert KeepFirst(s) == d + [last];
        forall i, j | 0 <= i < j < |d| + 1 ensures Key((d + [last])[i]) != Key((d + [last])[j]) {
          if j == |d| {
            assert Key(d[i]) in KeysOf(d);
          }
        }
      }
    }
  }

  /** Selecting files appends them and then de-duplicates. */
  function AddFiles(prev: seq<File>, added: seq<File>): seq<File> {
    KeepFirst(prev + added)
  }

  /** Dropping one position; an index outside the list removes nothing. */
  function RemoveAt(s: seq<File>, index: int): seq<File> {
    if 0 <= index < |s| then s[..index] + s[index + 1..] else s
  }

  lemma KeyInPrefix(s: seq<File>, j: nat)
    requires j < |s|
    ensures Key(s[j]) in KeysOf(s[..j]) <==> FindIndex(s, Key(s[j])) < j
  {
    var r := FindIndex(s, Key(s[j]));
    if Key(s[j]) in KeysOf(s[..j]) {
      var i :| 0 <= i < j && Key(s[..j][i]) == Key(s[j]);
      assert s[..j][i] == s[i];
    }
    if r < j {
      assert s[..j][r] == s[r];
    }
  }

  /** De-duplicating one more entry of a list keeps that entry exactly when
      its own index is the first index with its key. */
  lemma KeepFirstExtend(s: seq<File>, j: nat)
    requires j < |s|
    ensures KeepFirst(s[..j + 1]) ==
      if FindIndex(s, Key(s[j])) == j then KeepFirst(s[..j]) + [s[j]] else KeepFirst(s[..j])
  {
    assert s[..j + 1][..j] == s[..j];
    KeyInPrefix(s, j);
  }

  /** The selection handler's filter with a first-index test: keep the
      entries of the combined list whose own index is the first index with
      their key. */
  method SelectFiles(prev: seq<File>, added: seq<File>) returns (r: seq<File>)
    ensures r == AddFiles(prev, added)
    ensures DistinctKeys(r) && KeysOf(r) == KeysOf(prev + added)
  {
    var all := prev + added;
    r := [];
    for j := 0 to |all|
      invariant r == KeepFirst(all[..j])
    {
      KeepFirstExtend(all, j);
      if FindIndex(all, Key(all[j])) == j {
        r := r + [all[j]];
      }
    }
    assert all[..|all|] == all;
    KeepFirstContract(all);
  }

  /** The removal handler's filter on the index: keep every entry whose
      index differs from the one to remove. */
  method RemoveFile(s: seq<File>, index: int) returns (r: seq<File>)
    ensures r == RemoveAt(s, index)
    ensures 0 <= index < |s| ==>
      && |r| == |s| - 1
      && (forall k :: 0 <= k < index ==> r[k] == s[k])
      && (forall k :: index <= k < |r| ==> r[k] == s[k + 1])
    ensures !(0 <= index < |s|) ==> r == s
  {
    r := [];
    for j := 0 to |s|
      invariant r == if 0 <= index < j then s[..index] + s[index + 1..j] else s[..j]
    {
      if j != index {
        if 0 <= index < j {
          assert s[index + 1..j + 1] == s[index + 1..j] + [s[j]];
        } else {
          assert s[..j + 1] == s[..j] + [s[j]];
        }
        r := r + [s[j]];
      } else {
        assert s[index + 1..j + 1] == [];
      }
    }
    assert s[..|s|] == s;
  }

  /** A collection without duplicate keys is its own de-duplication. */
  lemma {:induction false} KeepFirstOfDistinct(s: seq<File>)
    requires DistinctKeys(s)
    ensures KeepFirst(s) == s
  {
    if |s| > 0 {
      var init := s[..|s| - 1];
      KeepFirstOfDistinct(init);
      assert init + [s[|s| - 1]] == s;
    }
  }

  /** Adding files never disturbs what is already there: the existing
      entries stay in front, in order, and only entries with new keys follow. */
  lemma {:induction false} AddFilesKeepsExisting(prev: seq<File>, added: seq<File>)
    requires DistinctKeys(prev)
    ensures |AddFiles(prev, added)| >= |prev|
    ensures AddFiles(prev, added)[..|prev|] == prev
    ensures forall i :: |prev| <= i < |AddFiles(prev, added)| ==> Key(AddFiles(prev, added)[i]) !in KeysOf(prev)
  {
    var r := AddFiles(prev, added);
    if |added| == 0 {
      assert prev + added == prev;
      KeepFirstOfDistinct(prev);
    } else {
      var all := prev + added;
      var init := added[..|added| - 1];
      assert all[..|all| - 1] == prev + init;
      AddFilesKeepsExisting(prev, init);
      var last := all[|all| - 1];
      if Key(last) !in KeysOf(prev + init) {
        assert KeysOf(prev) <= KeysOf(prev + init) by {
          forall k | k in KeysOf(prev) ensures k in KeysOf(prev + init) {
            var j :| 0 <= j < |prev| && Key(prev[j]) == k;
            assert (prev + init)[j] == prev[j];
          }
        }
        assert r == AddFiles(prev, init) + [last];
      }
    }
  }

  /** Re-selecting files whose keys are all present changes nothing. */
  lemma {:induction false} AddKnownKeysIsNoop(prev: seq<File>, added: seq<File>)
    requires DistinctKeys(prev)
    requires forall i :: 0 <= i < |added| ==> Key(added[i]) in KeysOf(prev)
    ensures AddFiles(prev, added) == prev
  {
    if |added| == 0 {
      assert prev + added == prev;
      KeepFirstOfDistinct(prev);
    } else {
      var all := prev + added;
      var init := added[..|added| - 1];
      assert all[..|all| - 1] == prev + init;
      AddKnownKeysIsNoop(prev, init);
      assert Key(all[|all| - 1]) in KeysOf(prev + init) by {
        var j :| 0 <= j < |prev| && Key(prev[j]) == Key(added[|added| - 1]);
        assert (prev + init)[j] == prev[j];
      }
      assert KeepFirst(all) == KeepFirst(prev + init);
    }
  }

  /** A file with a new key is appended at the end. */
  lemma AddNewKeyAppends(prev: seq<File>, f: File)
    requires DistinctKeys(prev)
    requires Key(f) !in KeysOf(prev)
    ensures AddFiles(prev, [f]) == prev + [f]
  {
    assert (prev + [f])[..|prev|] == prev;
    KeepFirstOfDistinct(prev);
  }

  /** Selecting the same file twice leaves exactly one entry with its key. */
  lemma SelectingTwiceKeepsOne(prev: seq<File>, f: File)
    requires DistinctKeys(prev)
    ensures var r := AddFiles(AddFiles(prev, [f]), [f]);
      && r == AddFiles(prev, [f])
      && (exists i :: 0 <= i < |r| && Key(r[i]) == Key(f))
      && forall i, j :: 0 <= i < |r| && 0 <= j < |r| && Key(r[i]) == Key(f) && Key(r[j]) == Key(f) ==> i == j
  {
    var once := AddFiles(prev, [f]);
    KeepFirstContract(prev + [f]);
    assert Key(f) in KeysOf(prev + [f]) by {
      assert (prev + [f])[|prev|] == f;
    }
    AddKnownKeysIsNoop(once, [f]);
  }

  /** Removing an entry keeps the keys distinct. */
  lemma RemoveKeepsDistinct(s: seq<File>, index: int)
    requires DistinctKeys(s)
    ensures DistinctKeys(RemoveAt(s, index))
  {
    var r := RemoveAt(s, index);
    if 0 <= index < |s| {
      forall i, j | 0 <= i < j < |r| ensures Key(r[i]) != Key(r[j]) {
        var i' := if i < index then i else i + 1;
        var j' := if j < index then j else j + 1;
        assert r[i] == s[i'] && r[j] == s[j'];
      }
    }
  }
}
