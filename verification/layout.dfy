/** A fixed-size struct on the wire is its fields' bytes laid end to end in
    declared order, with no padding: this is how `binary.Write` and
    `binary.Read` treat a struct of fixed-size fields. A layout is the table
    of offsets at which the fields start, followed by the struct's size, so
    field i occupies bytes os[i] up to (not including) os[i + 1]. */
module Layout {
  import opened Bytes

  ghost predicate IsLayout(os: seq<nat>)
  {
    && |os| >= 1
    && os[0] == 0
    && forall i :: 0 <= i < |os| - 1 ==> os[i] <= os[i + 1]
  }

  /** Total size of the struct (what `binary.Size` reports). */
  function Size(os: seq<nat>): nat
    requires |os| >= 1
  {
    os[|os| - 1]
  }

  lemma {:induction false} Ascending(os: seq<nat>, i: nat, j: nat)
    requires IsLayout(os)
    requires i <= j < |os|
    ensures os[i] <= os[j]
    decreases j - i
  {
    if i < j {
      Ascending(os, i, j - 1);
    }
  }

  lemma BoundedBySize(os: seq<nat>)
    requires IsLayout(os)
    ensures forall i :: 0 <= i < |os| ==> os[i] <= Size(os)
  {
    forall i | 0 <= i < |os| {
      Ascending(os, i, |os| - 1);
    }
  }

  /** Field bytes fs have exactly the widths the layout gives them. */
  ghost predicate Fits(fs: seq<seq<Byte>>, os: seq<nat>)
  {
    && |fs| + 1 == |os|
    && forall i :: 0 <= i < |fs| ==> |fs[i]| + os[i] == os[i + 1]
  }

  /** Writing: the fields' bytes one after another. */
  function Flatten(fs: seq<seq<Byte>>): (w: seq<Byte>)
  {
    if fs == [] then [] else Flatten(fs[..|fs| - 1]) + fs[|fs| - 1]
  }

  /** Reading: field i is the slice between its offset and the next. */
  function Split(w: seq<Byte>, os: seq<nat>): (fs: seq<seq<Byte>>)
    requires IsLayout(os)
    requires |w| == Size(os)
    ensures Fits(fs, os)
  {
    BoundedBySize(os);
    seq(|os| - 1, i requires 0 <= i < |os| - 1 => w[os[i]..os[i + 1]])
  }

  /** Field i of a read buffer is the slice between its offset and the next. */
  lemma SplitAt(w: seq<Byte>, os: seq<nat>, i: nat)
    requires IsLayout(os)
    requires |w| == Size(os)
    requires i < |os| - 1
    ensures os[i] <= os[i + 1] <= |w|
    ensures Split(w, os)[i] == w[os[i]..os[i + 1]]
  {
    BoundedBySize(os);
  }

  /** The first k fields of a fitting sequence end at offset k. */
  lemma {:induction false} FlattenLength(fs: seq<seq<Byte>>, os: seq<nat>, k: nat)
    requires IsLayout(os)
    requires Fits(fs, os)
    requires k <= |fs|
    ensures |Flatten(fs[..k])| == os[k]
  {
    if k > 0 {
      FlattenLength(fs, os, k - 1);
      assert fs[..k][..k - 1] == fs[..k - 1];
    } else {
      assert fs[..0] == [];
    }
  }

  /** The bytes of the first k fields begin the bytes of all fields. */
  lemma {:induction false} FlattenPrefix(fs: seq<seq<Byte>>, k: nat)
    requires k <= |fs|
    ensures |Flatten(fs[..k])| <= |Flatten(fs)|
    ensures Flatten(fs)[..|Flatten(fs[..k])|] == Flatten(fs[..k])
    decreases |fs|
  {
    if k == |fs| {
      assert fs[..k] == fs;
    } else {
      var init := fs[..|fs| - 1];
      FlattenPrefix(init, k);
      assert init[..k] == fs[..k];
    }
  }

  /** Reading back what was written gives the fields that were written. */
  lemma SplitFlatten(fs: seq<seq<Byte>>, os: seq<nat>)
    requires IsLayout(os)
    requires Fits(fs, os)
    ensures |Flatten(fs)| == Size(os)
    ensures Split(Flatten(fs), os) == fs
  {
    assert fs[..|fs|] == fs;
    FlattenLength(fs, os, |fs|);
    var w := Flatten(fs);
    forall i | 0 <= i < |fs|
      ensures Split(w, os)[i] == fs[i]
    {
      var upto := fs[..i + 1];
      assert upto[..i] == fs[..i];
      FlattenLength(fs, os, i);
      FlattenLength(fs, os, i + 1);
      FlattenPrefix(fs, i + 1);
      assert Flatten(upto) == Flatten(fs[..i]) + fs[i];
    }
  }

  /** The first k fields read from w, written back, are w up to offset k. */
  lemma {:induction false} FlattenSplitPrefix(w: seq<Byte>, os: seq<nat>, k: nat)
    requires IsLayout(os)
    requires |w| == Size(os)
    requires k < |os|
    ensures os[k] <= |w|
    ensures Flatten(Split(w, os)[..k]) == w[..os[k]]
  {
    Ascending(os, k, |os| - 1);
    var fs := Split(w, os);
    if k > 0 {
      FlattenSplitPrefix(w, os, k - 1);
      assert fs[..k][..k - 1] == fs[..k - 1];
      assert w[..os[k]] == w[..os[k - 1]] + w[os[k - 1]..os[k]];
    } else {
      assert fs[..0] == [];
    }
  }

  /** Writing what was read gives the original bytes. */
  lemma FlattenSplit(w: seq<Byte>, os: seq<nat>)
    requires IsLayout(os)
    requires |w| == Size(os)
    ensures Flatten(Split(w, os)) == w
  {
    var fs := Split(w, os);
    FlattenSplitPrefix(w, os, |os| - 1);
    assert fs[..|os| - 1] == fs;
  }
}
