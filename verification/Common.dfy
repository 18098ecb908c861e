/** Types shared by every module: bytes, optional values and I/O results. */
module Common {
  newtype byte = x: int | 0 <= x < 256

  datatype Option<+T> = None | Some(value: T) {
    predicate IsFailure() { None? }

    function PropagateFailure<U>(): Option<U>
      requires None?
    {
      None
    }

    function Extract(): T
      requires Some?
    {
      value
    }
  }

  /** The concatenation of a list of byte strings. */
  function Flatten(parts: seq<seq<byte>>): seq<byte> {
    if parts == [] then [] else parts[0] + Flatten(parts[1..])
  }

  lemma {:induction false} FlattenAppend(a: seq<seq<byte>>, b: seq<seq<byte>>)
    ensures Flatten(a + b) == Flatten(a) + Flatten(b)
  {
    if a == [] {
      assert a + b == b;
    } else {
      assert (a + b)[1..] == a[1..] + b;
      FlattenAppend(a[1..], b);
    }
  }

  lemma FlattenSnoc(a: seq<seq<byte>>, x: seq<byte>)
    ensures Flatten(a + [x]) == Flatten(a) + x
  {
    FlattenAppend(a, [x]);
    assert Flatten([x]) == x + Flatten([]);
  }

  /** `str::split(sep)`: always at least one piece. */
  function Split(sep: byte, p: seq<byte>): (r: seq<seq<byte>>)
    ensures |r| >= 1
  {
    if p == [] then [[]]
    else if p[0] == sep then [[]] + Split(sep, p[1..])
    else Glue(p[0], Split(sep, p[1..]))
  }

  function Glue(c: byte, pieces: seq<seq<byte>>): seq<seq<byte>>
    requires pieces != []
  {
    [[c] + pieces[0]] + pieces[1..]
  }

  /** No piece holds the separator. */
  lemma {:induction false} SplitClean(sep: byte, p: seq<byte>)
    ensures forall s | s in Split(sep, p) :: sep !in s
  {
    if p != [] {
      SplitClean(sep, p[1..]);
    }
  }

  lemma {:induction false} SplitAt(sep: byte, a: seq<byte>, b: seq<byte>)
    ensures Split(sep, a + [sep] + b) == Split(sep, a) + Split(sep, b)
  {
    hide Split, Glue;
    if a == [] {
      assert [] + [sep] + b == [sep] + b;
      SplitFirst(sep, sep, b);
      SplitEmpty(sep);
    } else {
      var c, front := a[0], a[1..];
      assert a == [c] + front && a + [sep] + b == [c] + (front + [sep] + b);
      SplitAt(sep, front, b);
      SplitFirst(sep, c, front);
      SplitFirst(sep, c, front + [sep] + b);
      GlueAppend(c, Split(sep, front), Split(sep, b));
      assert [[]] + (Split(sep, front) + Split(sep, b)) == [[]] + Split(sep, front) + Split(sep, b);
    }
  }

  lemma SplitEmpty(sep: byte)
    ensures Split(sep, []) == [[]]
  {
  }

  lemma SplitFirst(sep: byte, c: byte, rest: seq<byte>)
    ensures Split(sep, [c] + rest) == if c == sep then [[]] + Split(sep, rest) else Glue(c, Split(sep, rest))
  {
    hide Glue;
    assert ([c] + rest)[1..] == rest;
  }

  lemma GlueAppend(c: byte, a: seq<seq<byte>>, b: seq<seq<byte>>)
    requires a != []
    ensures Glue(c, a + b) == Glue(c, a) + b
  {
  }

  lemma {:induction false} SplitNone(sep: byte, a: seq<byte>)
    requires sep !in a
    ensures Split(sep, a) == [a]
  {
    if a != [] {
      SplitNone(sep, a[1..]);
      assert [a[0]] + a[1..] == a;
    }
  }
}
