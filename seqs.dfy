/** Generic facts about sequences used by the rule builders and the network compiler. */
module Seqs {

  /** Concatenation of a sequence of sequences, in order. */
  function Flatten<T>(ss: seq<seq<T>>): seq<T>
  {
    if ss == [] then [] else ss[0] + Flatten(ss[1..])
  }

  /** Appending one more block at the end appends its elements at the end. */
  lemma {:induction false} FlattenSnoc<T>(ss: seq<seq<T>>, t: seq<T>)
    ensures Flatten(ss + [t]) == Flatten(ss) + t
  {
    if ss == [] {
      assert ss + [t] == [t];
    } else {
      assert (ss + [t])[1..] == ss[1..] + [t];
      FlattenSnoc(ss[1..], t);
    }
  }

  /** The flattening of one more leading block adds that block at the end. */
  lemma FlattenPrefixSnoc<T>(ss: seq<seq<T>>, c: nat)
    requires c < |ss|
    ensures Flatten(ss[..c + 1]) == Flatten(ss[..c]) + ss[c]
  {
    assert ss[..c + 1] == ss[..c] + [ss[c]];
    FlattenSnoc(ss[..c], ss[c]);
  }

  /** Flattening distributes over concatenation of the block sequences. */
  lemma {:induction false} FlattenAppend<T>(ss: seq<seq<T>>, tt: seq<seq<T>>)
    ensures Flatten(ss + tt) == Flatten(ss) + Flatten(tt)
  {
    if ss == [] {
      assert ss + tt == tt;
    } else {
      assert (ss + tt)[1..] == ss[1..] + tt;
      FlattenAppend(ss[1..], tt);
    }
  }

  /** An element of the flattening comes from some block, and every element of every block is in it. */
  lemma {:induction false} FlattenMember<T>(ss: seq<seq<T>>, x: T)
    ensures x in Flatten(ss) <==> exists i :: 0 <= i < |ss| && x in ss[i]
  {
    if ss != [] {
      FlattenMember(ss[1..], x);
      if x in Flatten(ss[1..]) {
        var i :| 0 <= i < |ss[1..]| && x in ss[1..][i];
        assert x in ss[i + 1];
      }
      if exists i :: 0 <= i < |ss| && x in ss[i] {
        var i :| 0 <= i < |ss| && x in ss[i];
        if i > 0 {
          assert x in ss[1..][i - 1];
        }
      }
    }
  }

  /** When every block has the same width, the flattening has |ss| * width elements and block k sits at k * width. */
  lemma {:induction false} FlattenUniform<T>(ss: seq<seq<T>>, width: nat, k: nat, j: nat)
    requires forall i :: 0 <= i < |ss| ==> |ss[i]| == width
    requires k < |ss| && j < width
    ensures |Flatten(ss)| == |ss| * width
    ensures k * width + j < |Flatten(ss)| && Flatten(ss)[k * width + j] == ss[k][j]
  {
    FlattenUniformLength(ss, width);
    if k > 0 {
      FlattenUniform(ss[1..], width, k - 1, j);
      assert k * width + j == width + ((k - 1) * width + j);
    }
  }

  lemma {:induction false} FlattenUniformLength<T>(ss: seq<seq<T>>, width: nat)
    requires forall i :: 0 <= i < |ss| ==> |ss[i]| == width
    ensures |Flatten(ss)| == |ss| * width
  {
    if ss != [] {
      FlattenUniformLength(ss[1..], width);
    }
  }

  lemma AppendAssoc<T>(a: seq<T>, b: seq<T>, c: seq<T>)
    ensures a + b + c == a + (b + c)
  {
  }

  /** No element occurs twice. */
  predicate NoDup<T(==)>(s: seq<T>)
  {
    forall i, j :: 0 <= i < j < |s| ==> s[i] != s[j]
  }
}
