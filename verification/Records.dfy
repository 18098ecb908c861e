/** The law behind every record-list payload: a client cursor loop that stops at
    the first record it cannot complete. */
module Records {
  import opened Common

  /** What a cursor loop collects. */
  function DecodeList<T>(parse: seq<byte> -> Option<(T, seq<byte>)>, p: seq<byte>): seq<T>
    decreases |p|
  {
    match parse(p)
    case None => []
    case Some((t, rest)) => if |rest| < |p| then [t] + DecodeList(parse, rest) else [t]
  }

  function EncodeList<T>(enc: T -> seq<byte>, ts: seq<T>): seq<byte> {
    if ts == [] then [] else enc(ts[0]) + EncodeList(enc, ts[1..])
  }

  /** What `parse` must return on the first `n` bytes of one record and what follows. */
  function Cut<T>(enc: T -> seq<byte>, t: T, tail: seq<byte>, n: nat): Option<(T, seq<byte>)>
    requires n <= |enc(t)| + |tail|
  {
    if n < |enc(t)| then None else Some((t, tail[..n - |enc(t)|]))
  }

  /** `parse` reads back `enc` on every prefix, for the records that satisfy `wf`. */
  ghost predicate Codec<T(!new)>(enc: T -> seq<byte>, parse: seq<byte> -> Option<(T, seq<byte>)>, wf: T -> bool) {
    && (forall t :: wf(t) ==> |enc(t)| > 0)
    && (forall t, tail: seq<byte>, n: nat | wf(t) && n <= |enc(t)| + |tail| ::
          parse((enc(t) + tail)[..n]) == Cut(enc, t, tail, n))
  }

  lemma {:induction false} EncodeListAppend<T>(enc: T -> seq<byte>, a: seq<T>, b: seq<T>)
    ensures EncodeList(enc, a + b) == EncodeList(enc, a) + EncodeList(enc, b)
  {
    if a == [] {
      assert a + b == b;
    } else {
      assert (a + b)[1..] == a[1..] + b;
      EncodeListAppend(enc, a[1..], b);
    }
  }

  lemma EncodeListSnoc<T>(enc: T -> seq<byte>, a: seq<T>, t: T)
    ensures EncodeList(enc, a + [t]) == EncodeList(enc, a) + enc(t)
  {
    EncodeListAppend(enc, a, [t]);
    assert EncodeList(enc, [t]) == enc(t) + EncodeList(enc, []);
  }

  /** Number of records that lie wholly within the first `n` bytes. */
  function Whole<T>(enc: T -> seq<byte>, ts: seq<T>, n: nat): (k: nat)
    ensures k <= |ts|
  {
    if ts == [] || n < |enc(ts[0])| then 0 else 1 + Whole(enc, ts[1..], n - |enc(ts[0])|)
  }

  /** `Whole` is what its name says. */
  lemma {:induction false} WholeIsMaximal<T>(enc: T -> seq<byte>, ts: seq<T>, n: nat)
    ensures |EncodeList(enc, ts[..Whole(enc, ts, n)])| <= n
    ensures Whole(enc, ts, n) < |ts| ==> n < |EncodeList(enc, ts[..Whole(enc, ts, n) + 1])|
  {
    var k := Whole(enc, ts, n);
    if ts != [] && n >= |enc(ts[0])| {
      WholeIsMaximal(enc, ts[1..], n - |enc(ts[0])|);
      assert ts[..k][1..] == ts[1..][..k - 1];
      if k < |ts| {
        assert ts[..k + 1][1..] == ts[1..][..k];
      }
    } else if ts != [] {
      assert ts[..1] == [ts[0]];
      assert EncodeList(enc, ts[..1]) == enc(ts[0]) + EncodeList(enc, []) by { assert ts[..1][1..] == []; }
    }
  }

  /** Decoding the first `n` bytes of a list payload returns exactly the records
      wholly contained in them, in order. */
  lemma {:induction false} DecodePrefix<T(!new)>(enc: T -> seq<byte>, parse: seq<byte> -> Option<(T, seq<byte>)>,
      wf: T -> bool, ts: seq<T>, n: nat)
    requires Codec(enc, parse, wf) && (forall t | t in ts :: wf(t))
    requires parse([]) == None
    requires n <= |EncodeList(enc, ts)|
    ensures DecodeList(parse, EncodeList(enc, ts)[..n]) == ts[..Whole(enc, ts, n)]
  {
    var p := EncodeList(enc, ts)[..n];
    if ts == [] {
      assert p == [];
    } else {
      var tail := EncodeList(enc, ts[1..]);
      assert parse((enc(ts[0]) + tail)[..n]) == Cut(enc, ts[0], tail, n);
      if n >= |enc(ts[0])| {
        DecodePrefix(enc, parse, wf, ts[1..], n - |enc(ts[0])|);
        assert ts[..Whole(enc, ts, n)] == [ts[0]] + ts[1..][..Whole(enc, ts, n) - 1];
      }
    }
  }

  /** In particular the whole payload decodes to the whole list. */
  lemma RoundTrip<T(!new)>(enc: T -> seq<byte>, parse: seq<byte> -> Option<(T, seq<byte>)>, wf: T -> bool, ts: seq<T>)
    requires Codec(enc, parse, wf) && (forall t | t in ts :: wf(t))
    requires parse([]) == None
    ensures DecodeList(parse, EncodeList(enc, ts)) == ts
  {
    var n := |EncodeList(enc, ts)|;
    DecodePrefix(enc, parse, wf, ts, n);
    WholeIsMaximal(enc, ts, n);
    var k := Whole(enc, ts, n);
    if k < |ts| {
      assert ts == ts[..k + 1] + ts[k + 1..];
      EncodeListAppend(enc, ts[..k + 1], ts[k + 1..]);
    }
    assert EncodeList(enc, ts)[..n] == EncodeList(enc, ts);
  }
}
