/** Strings on the reader's stack (StackStream of reader.h), whose length is a 32-bit word. */
module StringStack {
  import opened Bytes
  import opened Events
  import opened Options

  /** `length_` once the bytes of a string and its NUL have been put. */
  function Length32(n: nat): nat {
    (n + 1) % SIZE_TYPE_LIMIT
  }

  /** Where the part that Pop takes off starts: only so many bytes as the length says. */
  function PopStart(b: Text): (r: nat)
    ensures r <= |b| + 1
    ensures Length32(|b|) > 0 ==> r <= |b|
  {
    |b| + 1 - Length32(|b|)
  }

  /** The bytes that stay on the stack behind a string. */
  function LeftOver(b: Text): Text {
    (b + [NUL])[..PopStart(b)]
  }

  /** The string handed to the handler, without its NUL; nothing if its length says that it lies behind the stack. */
  function Reported(b: Text): Option<Text> {
    if Length32(|b|) == 0 then None else Some(b[PopStart(b)..])
  }

  /** What is reported: as many of the last bytes as the 32-bit length has left of them. */
  lemma {:induction false} ReportedIs(b: Text)
    ensures Reported(b).None? <==> |b| % SIZE_TYPE_LIMIT == STRING_LIMIT
    ensures Reported(b).Some? ==> Reported(b).value == b[|b| - |b| % SIZE_TYPE_LIMIT..]
    ensures |LeftOver(b)| % SIZE_TYPE_LIMIT == 0
  {
    var n, k := |b|, |b| / SIZE_TYPE_LIMIT;
    assert n == k * SIZE_TYPE_LIMIT + n % SIZE_TYPE_LIMIT;
  }

  /**
   * The string reported is the bytes read, and the stack is as before, each exactly for strings of
   * fewer than 2^32 - 1 bytes.
   */
  lemma {:induction false} StringIntact(b: Text)
    ensures Reported(b) == Some(b) <==> |b| < STRING_LIMIT
    ensures LeftOver(b) == [] <==> |b| < STRING_LIMIT
  {
    if |b| < STRING_LIMIT {
      assert b[0..] == b;
    } else {
      assert PopStart(b) > 0;
      if Reported(b).Some? {
        assert |Reported(b).value| < |b|;
      }
    }
  }

  function Letters(n: nat): (s: Text)
    ensures |s| == n
  {
    seq(n, _ => 97)
  }

  /** 2^32 letters are reported as the empty string, and all of them stay on the stack. */
  lemma {:induction false} LettersLost()
    ensures
      var b := Letters(SIZE_TYPE_LIMIT);
      Reported(b) == Some([]) && LeftOver(b) == b
  {
    hide Letters;
    var b := Letters(SIZE_TYPE_LIMIT);
    assert b[|b|..] == [] && (b + [NUL])[..|b|] == b;
  }
}
