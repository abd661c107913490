// The string keys of the hit table, written by process_branches and read back by free_hashtable
// (c_monitor/main.c).

module KeyCodec {
  import opened Base
  import opened Decimal
  import opened TextSearch

  /** HASH_KEY_SZ, the size of the buffer a key is printed into. */
  const KEY_SIZE := 64
  const SEPARATOR := '/'
  /** One past the largest value of the signed long that atol returns. */
  const LONG_LIMIT := 0x8000_0000_0000_0000

  function KeyText(e: Edge): string {
    Print(e.0) + [SEPARATOR] + Print(e.1)
  }

  /** What snprintf leaves in the buffer: at most KEY_SIZE - 1 characters. */
  function Key(e: Edge): string {
    if |KeyText(e)| < KEY_SIZE then KeyText(e) else KeyText(e)[..KEY_SIZE - 1]
  }

  /** Where the first separator is; |s| when there is none. */
  function SplitAt(s: string): nat {
    Find(s, SEPARATOR)
  }

  /** atol on text that starts with a digit.  overflow stands for the result that the C standard
      leaves undefined, when the number does not fit a signed long. */
  function Atol(s: string, overflow: string -> uint64): uint64
    requires AllDigits(s)
  {
    var v := Value(s);
    if v < LONG_LIMIT then v else overflow(s)
  }

  predicate IsKey(s: string) {
    && SplitAt(s) < |s|
    && AllDigits(s[..SplitAt(s)])
    && AllDigits(s[SplitAt(s) + 1..])
  }

  function Decode(s: string, overflow: string -> uint64): Edge
    requires IsKey(s)
  {
    (Atol(s[..SplitAt(s)], overflow), Atol(s[SplitAt(s) + 1..], overflow))
  }

  /** Every key fits its buffer: printing never truncates. */
  lemma KeyFits(e: Edge)
    ensures |KeyText(e)| <= 41 && Key(e) == KeyText(e)
  {
    PrintFits(e.0);
    PrintFits(e.1);
  }

  /** A key is both numbers in decimal with a slash between them. */
  lemma KeyIs(e: Edge)
    ensures Key(e) == Print(e.0) + "/" + Print(e.1)
  {
    KeyFits(e);
  }

  lemma KeySplits(e: Edge)
    ensures IsKey(Key(e))
    ensures Key(e)[..SplitAt(Key(e))] == Print(e.0)
    ensures Key(e)[SplitAt(Key(e)) + 1..] == Print(e.1)
  {
    KeyFits(e);
    var s, n := Key(e), |Print(e.0)|;
    assert s[..n] == Print(e.0) && s[n + 1..] == Print(e.1);
    assert SEPARATOR !in Print(e.0);
    FindIs(s, SEPARATOR, n);
  }

  /** Distinct pairs of addresses have distinct keys, over all of uint64. */
  lemma KeyInjective(e: Edge, e': Edge)
    ensures Key(e) == Key(e') <==> e == e'
  {
    if Key(e) == Key(e') {
      KeySplits(e);
      KeySplits(e');
      ValueOfPrint(e.0);
      ValueOfPrint(e.1);
      ValueOfPrint(e'.0);
      ValueOfPrint(e'.1);
    }
  }

  predicate Readable(e: Edge) {
    e.0 < LONG_LIMIT && e.1 < LONG_LIMIT
  }

  lemma ReadableIs(e: Edge)
    ensures Readable(e) <==> e.0 < 0x8000_0000_0000_0000 && e.1 < 0x8000_0000_0000_0000
  {
  }

  /** What an address is read back as. */
  function AddressRead(a: uint64, overflow: string -> uint64): uint64 {
    if a < LONG_LIMIT then a else overflow(Print(a))
  }

  function ReadAs(e: Edge, overflow: string -> uint64): Edge {
    (AddressRead(e.0, overflow), AddressRead(e.1, overflow))
  }

  lemma DecodeOfKey(e: Edge, overflow: string -> uint64)
    ensures IsKey(Key(e))
    ensures Decode(Key(e), overflow) == ReadAs(e, overflow)
    ensures Readable(e) ==> Decode(Key(e), overflow) == e
    ensures Decode(Key(e), overflow)
        == (if e.0 < 0x8000_0000_0000_0000 then e.0 else overflow(Print(e.0)),
            if e.1 < 0x8000_0000_0000_0000 then e.1 else overflow(Print(e.1)))
  {
    KeySplits(e);
    ValueOfPrint(e.0);
    ValueOfPrint(e.1);
  }

  /** Reading a key back is sure to give its pair exactly when both addresses fit a signed long. */
  lemma RoundTrip(e: Edge)
    ensures IsKey(Key(e))
    ensures (forall overflow: string -> uint64 :: Decode(Key(e), overflow) == e)
            <==> e.0 < 0x8000_0000_0000_0000 && e.1 < 0x8000_0000_0000_0000
  {
    KeySplits(e);
    ValueOfPrint(e.0);
    ValueOfPrint(e.1);
    if !Readable(e) {
      var zero: string -> uint64 := _ => 0;
      assert Decode(Key(e), zero) != e;
    }
  }
}
