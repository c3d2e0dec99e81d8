/** `sorted([str(p) for p in glob], key=natural_key)`: the stable sort of
    the glob results with `natural_key` as the key and Python's `<` on keys. */
module NaturalSort {
  import opened NaturalKey
  import opened KeyOrder
  import StableSort

  /** `<` on two keys, where a `TypeError` would count as "not smaller"; the
      keys of file names never raise (`KeysComparable`). When it holds, the
      reverse comparison is false, so the sort never meets a contradiction. */
  function KeyLess(a: seq<Seg>, b: seq<Seg>): (r: bool)
    ensures r ==> KeyLt(b, a) == Lt(false)
  {
    if KeyLt(a, b) == Lt(true) then KeyLtAsymmetric(a, b); true else false
  }

  /** The file list in assembly order. */
  function SortFiles(files: seq<string>): (r: seq<string>)
    ensures multiset(r) == multiset(files)
  {
    StableSort.Sort(files, Key, KeyLess)
  }

  /** Python's `<` on natural keys is a strict total order on the keys of
      file names, as a stable sort needs. */
  lemma NaturalOrderIsTotal()
    ensures StableSort.StrictTotalOnKeys(Key, KeyLess)
  {
    forall x: string, y: string, z: string
      ensures !KeyLess(Key(x), Key(x))
      ensures KeyLess(Key(x), Key(y)) && KeyLess(Key(y), Key(z)) ==> KeyLess(Key(x), Key(z))
      ensures KeyLess(Key(x), Key(y)) || KeyLess(Key(y), Key(x)) || Key(x) == Key(y)
    {
      NaturalLessIsStrictOrder(x, y, z);
    }
  }

  /** The assembly order is non-decreasing by natural key: no file comes
      after one whose key is larger. */
  lemma SortFilesIsOrdered(files: seq<string>)
    ensures forall i, j :: 0 <= i < j < |SortFiles(files)| ==>
      !NaturalLess(SortFiles(files)[j], SortFiles(files)[i])
  {
    NaturalOrderIsTotal();
    StableSort.SortIsOrdered(files, Key, KeyLess);
  }

  /** The sort is stable: files with equal natural keys (`clip_9` and
      `clip_09`, `A_1` and `a_1`) keep their enumeration order. */
  lemma SortFilesIsStable(files: seq<string>, k: seq<Seg>)
    ensures StableSort.WithKey(SortFiles(files), Key, k) == StableSort.WithKey(files, Key, k)
  {
    NaturalOrderIsTotal();
    StableSort.SortIsStable(files, Key, KeyLess, k);
  }

  /** The assembly order is fully determined by the two properties above:
      any list of the files that is non-decreasing by natural key and keeps
      equal-key files in enumeration order is the one `sorted` returns. */
  lemma SortFilesIsTheStableOrder(files: seq<string>, r: seq<string>)
    requires forall i, j :: 0 <= i < j < |r| ==> !NaturalLess(r[j], r[i])
    requires forall k :: StableSort.WithKey(r, Key, k) == StableSort.WithKey(files, Key, k)
    ensures r == SortFiles(files)
  {
    NaturalOrderIsTotal();
    StableSort.SortIsTheStableOrdering(files, r, Key, KeyLess);
  }
}
