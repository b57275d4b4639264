/** Types and helpers shared by every component: the runtime's error codes, an option type, integer moduli and character counting. */
module MaTypes {

  /** The `ma_err_t` codes the modelled functions return. */
  datatype Err = Ok | EInval | ENotSup | EExist | EPerm | EIo

  datatype Option<+T> = None | Some(value: T)

  /** 2^32, the modulus of `uint32_t` arithmetic. */
  const Pow32: nat := 0x1_0000_0000
  /** 2^64, the modulus of `uint64_t` / `size_t` arithmetic. */
  const Pow64: nat := 0x1_0000_0000_0000_0000

  predicate IsDigit(c: char) { '0' <= c <= '9' }

  /** Occurrences of `ch` in `s`. */
  function CountChar(s: string, ch: char): (r: nat)
    ensures r <= |s|
    ensures r == 0 <==> ch !in s
  {
    if s == [] then 0
    else CountChar(s[..|s| - 1], ch) + (if s[|s| - 1] == ch then 1 else 0)
  }

  lemma {:induction false} CountCharAppend(a: string, b: string, ch: char)
    ensures CountChar(a + b, ch) == CountChar(a, ch) + CountChar(b, ch)
    decreases |b|
  {
    if b != [] {
      var b' := b[..|b| - 1];
      assert (a + b)[..|a + b| - 1] == a + b';
      CountCharAppend(a, b', ch);
    } else {
      assert a + b == a;
    }
  }
}
