/** UTF-8 validity and lossy decoding, byte for byte (section 4 of RFC 3629).
    A Rust `String` is modelled by its bytes, which are always valid. */
module Utf8 {
  import opened Common

  predicate Continuation(b: byte) { 0x80 <= b <= 0xBF }

  /** Whether `b` may follow the lead byte `lead` of a three- or four-byte sequence. */
  predicate Second(lead: byte, b: byte) {
    if lead == 0xE0 then 0xA0 <= b <= 0xBF
    else if lead == 0xED then 0x80 <= b <= 0x9F
    else if lead == 0xF0 then 0x90 <= b <= 0xBF
    else if lead == 0xF4 then 0x80 <= b <= 0x8F
    else Continuation(b)
  }

  /** Length of the well-formed sequence at the head of `s`; 0 when there is none. */
  function CharLen(s: seq<byte>): (n: nat)
    ensures n <= |s| && n <= 4
  {
    if |s| == 0 then 0
    else if s[0] < 0x80 then 1
    else if 0xC2 <= s[0] <= 0xDF then
      if |s| >= 2 && Continuation(s[1]) then 2 else 0
    else if 0xE0 <= s[0] <= 0xEF then
      if |s| >= 3 && Second(s[0], s[1]) && Continuation(s[2]) then 3 else 0
    else if 0xF0 <= s[0] <= 0xF4 then
      if |s| >= 4 && Second(s[0], s[1]) && Continuation(s[2]) && Continuation(s[3]) then 4 else 0
    else 0
  }

  predicate Valid(s: seq<byte>) {
    s == [] || (CharLen(s) > 0 && Valid(s[CharLen(s)..]))
  }

  /** How many bytes one replacement character stands for. */
  function BadLen(s: seq<byte>): (n: nat)
    requires |s| > 0 && CharLen(s) == 0
    ensures 1 <= n <= |s|
  {
    if 0xE0 <= s[0] <= 0xEF && |s| >= 2 && Second(s[0], s[1]) then 2
    else if 0xF0 <= s[0] <= 0xF4 && |s| >= 2 && Second(s[0], s[1]) then
      if |s| >= 3 && Continuation(s[2]) then 3 else 2
    else 1
  }

  const REPLACEMENT: seq<byte> := [0xEF, 0xBF, 0xBD]

  /** `String::from_utf8_lossy`. */
  function Lossy(s: seq<byte>): seq<byte> {
    if s == [] then []
    else if CharLen(s) > 0 then s[..CharLen(s)] + Lossy(s[CharLen(s)..])
    else REPLACEMENT + Lossy(s[BadLen(s)..])
  }

  lemma CharLenAppend(s: seq<byte>, t: seq<byte>)
    requires CharLen(s) > 0
    ensures CharLen(s + t) == CharLen(s)
  {
  }

  lemma {:induction false} ValidAppend(s: seq<byte>, t: seq<byte>)
    requires Valid(s)
    ensures Valid(s + t) == Valid(t)
  {
    if s == [] {
      assert s + t == t;
    } else {
      CharLenAppend(s, t);
      assert (s + t)[CharLen(s)..] == s[CharLen(s)..] + t;
      ValidAppend(s[CharLen(s)..], t);
    }
  }

  /** A replacement character is one well-formed sequence. */
  lemma ReplacementHead(s: seq<byte>)
    requires |s| >= 3 && s[..3] == REPLACEMENT
    ensures CharLen(s) == 3
  {
    assert s[0] == s[..3][0] && s[1] == s[..3][1] && s[2] == s[..3][2];
  }

  /** Lossy decoding is the identity on valid text, and always yields valid text. */
  lemma {:induction false} LossyIdentity(s: seq<byte>)
    ensures Valid(Lossy(s))
    ensures Lossy(s) == s <==> Valid(s)
  {
    hide CharLen, BadLen;
    if s != [] {
      var n := CharLen(s);
      if n > 0 {
        var c, tail := s[..n], s[n..];
        LossyIdentity(tail);
        assert c + tail == s;
        CharLenPrefix(s);
        ValidAppend(c, Lossy(tail));
        assert (c + Lossy(tail))[n..] == Lossy(tail);
      } else {
        var tail := Lossy(s[BadLen(s)..]);
        LossyIdentity(s[BadLen(s)..]);
        assert (REPLACEMENT + tail)[..3] == REPLACEMENT && (REPLACEMENT + tail)[3..] == tail;
        ReplacementHead(REPLACEMENT + tail);
      }
    }
  }

  lemma CharLenPrefix(s: seq<byte>)
    requires CharLen(s) > 0
    ensures CharLen(s[..CharLen(s)]) == CharLen(s) && Valid(s[..CharLen(s)])
  {
    var c := s[..CharLen(s)];
    assert CharLen(c) == CharLen(s);
    assert c[CharLen(c)..] == [];
  }

  /** Cutting valid text anywhere costs at most one replacement character. */
  lemma {:induction false} LossyOfCut(s: seq<byte>, k: nat)
    requires Valid(s) && k <= |s|
    ensures |Lossy(s[..k])| <= k + 2
  {
    var n := CharLen(s);
    if k == 0 {
      assert s[..k] == [];
    } else if k >= n {
      LossyOfCut(s[n..], k - n);
      CutKeepsChar(s, k);
      assert s[..k][n..] == s[n..][..k - n];
    } else {
      CutInsideChar(s, k);
      assert s[..k][k..] == [];
      assert Lossy(s[..k]) == REPLACEMENT + Lossy([]);
    }
  }

  lemma CutKeepsChar(s: seq<byte>, k: nat)
    requires 0 < CharLen(s) <= k <= |s|
    ensures CharLen(s[..k]) == CharLen(s)
  {
  }

  lemma CutInsideChar(s: seq<byte>, k: nat)
    requires 0 < k < CharLen(s)
    ensures CharLen(s[..k]) == 0 && BadLen(s[..k]) == k
  {
  }

  // --- how lossy decoding makes text longer ---

  function Bad(n: nat): (s: seq<byte>)
    ensures |s| == n
  {
    if n == 0 then [] else [0xFF] + Bad(n - 1)
  }

  function Replacements(n: nat): (s: seq<byte>)
    ensures |s| == 3 * n
  {
    if n == 0 then [] else REPLACEMENT + Replacements(n - 1)
  }

  lemma {:induction false} LossyOfBad(n: nat)
    ensures Lossy(Bad(n)) == Replacements(n)
  {
    if n > 0 {
      LossyOfBad(n - 1);
      assert Bad(n)[1..] == Bad(n - 1);
    }
  }

  lemma ReplacementPart(k: nat)
    requires 0 < k < 3
    ensures CharLen(REPLACEMENT[..k]) == 0
  {
  }

  /** Replacement characters cut inside one of them are no text. */
  lemma {:induction false} CutReplacements(n: nat, k: nat)
    requires k <= 3 * n
    ensures Valid(Replacements(n)[..k]) <==> k % 3 == 0
  {
    hide CharLen;
    var s := Replacements(n)[..k];
    if k >= 3 {
      CutReplacements(n - 1, k - 3);
      assert Replacements(n) == REPLACEMENT + Replacements(n - 1);
      assert s == REPLACEMENT + Replacements(n - 1)[..k - 3];
      assert s[..3] == REPLACEMENT && s[3..] == Replacements(n - 1)[..k - 3];
      ReplacementHead(s);
    } else if k > 0 {
      assert s == REPLACEMENT[..k];
      ReplacementPart(k);
    } else {
      assert s == [];
    }
  }
}
