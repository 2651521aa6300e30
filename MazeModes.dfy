/**
  The generation modes of src/maze/MazeMode.java: a closed enumeration whose
  constants carry the indices 0..4 in declaration order, with a lookup from
  index back to mode that fails for an index no mode carries.
*/
module MazeModes {
  import opened Wrappers

  datatype Mode = Backtrack | Prim | Combo | BTree | AldousBroder

  /** MazeMode.values(): the constants in declaration order. */
  const Values: seq<Mode> := [Backtrack, Prim, Combo, BTree, AldousBroder]

  /** The message of the IllegalArgumentException thrown by byIndex. */
  const NoSuchIndex: string := "MazeMode index does not exist!"

  /** getIndex: the index each constant was declared with. */
  function Index(m: Mode): (i: int)
    ensures 0 <= i < |Values| && Values[i] == m
  {
    match m
    case Backtrack => 0
    case Prim => 1
    case Combo => 2
    case BTree => 3
    case AldousBroder => 4
  }

  /** Every mode appears in values(), and no two modes share an index. */
  lemma IndicesDistinct(m: Mode, n: Mode)
    ensures m in Values
    ensures Index(m) == Index(n) <==> m == n
  {
  }

  /** values() lists the constants in the order of their indices. */
  lemma ValuesInIndexOrder()
    ensures forall k :: 0 <= k < |Values| ==> Index(Values[k]) == k
  {
  }

  /** The loop of byIndex over `modes`: the first mode carrying index i, if any. */
  function FirstWithIndex(modes: seq<Mode>, i: int): (r: Option<Mode>)
    ensures r.Some? ==> r.value in modes && Index(r.value) == i
    ensures r.None? <==> forall k :: 0 <= k < |modes| ==> Index(modes[k]) != i
  {
    if modes == [] then None
    else if Index(modes[0]) == i then Some(modes[0])
    else FirstWithIndex(modes[1..], i)
  }

  /** byIndex: the mode with index i, or the IllegalArgumentException when none has it. */
  function ByIndex(i: int): (r: Result<Mode, string>)
    ensures r.Ok? <==> 0 <= i < |Values|
    ensures r.Ok? ==> Index(r.value) == i
    ensures r.Err? ==> r.error == NoSuchIndex
  {
    ValuesInIndexOrder();
    assert 0 <= i < |Values| ==> Index(Values[i]) == i;
    match FirstWithIndex(Values, i)
    case Some(m) => Ok(m)
    case None => Err(NoSuchIndex)
  }

  /** byIndex(m.getIndex()) == m for every mode. */
  lemma ByIndexOfIndex(m: Mode)
    ensures ByIndex(Index(m)) == Ok(m)
  {
    IndicesDistinct(m, ByIndex(Index(m)).value);
  }

  /** byIndex(i).getIndex() == i for every index in 0..4. */
  lemma IndexOfByIndex(i: int)
    requires 0 <= i < |Values|
    ensures ByIndex(i).Ok? && Index(ByIndex(i).value) == i && ByIndex(i).value == Values[i]
  {
    IndicesDistinct(ByIndex(i).value, Values[i]);
  }
}
