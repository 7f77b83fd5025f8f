/** Types shared by every model: optional values, results and machine words. */
module Common {

  datatype Option<+T> = None | Some(value: T)

  /** The source's `std::expected`; error texts are not modelled. */
  datatype Result<+T> = Ok(value: T) | Err

  const TWO_32: int := 0x1_0000_0000

  type u32 = x: int | 0 <= x < 0x1_0000_0000
  type byte = x: int | 0 <= x < 256

  /** The value of a little-endian byte string. */
  function LittleEndian(data: seq<byte>): nat
  {
    if data == [] then 0 else data[0] + 256 * LittleEndian(data[1..])
  }

  type Bytes = seq<byte>

  /** The lowest `n` bytes of a number, the least significant first. */
  function LeastFirst(v: nat, n: nat): (r: Bytes)
    ensures |r| == n
  {
    if n == 0 then [] else [v % 256] + LeastFirst(v / 256, n - 1)
  }

  lemma {:induction false} ReadLeastFirst(v: nat, n: nat, bound: nat)
    requires v < bound && bound == Power256(n)
    ensures LittleEndian(LeastFirst(v, n)) == v
    decreases n
  {
    if n > 0 {
      ReadLeastFirst(v / 256, n - 1, Power256(n - 1));
      assert LeastFirst(v, n)[1..] == LeastFirst(v / 256, n - 1);
    }
  }

  function Power256(n: nat): nat { if n == 0 then 1 else 256 * Power256(n - 1) }

  lemma ReadFour(v: u32)
    ensures LittleEndian(LeastFirst(v, 4)) == v
  {
    assert Power256(4) == 0x1_0000_0000;
    ReadLeastFirst(v, 4, 0x1_0000_0000);
  }

  lemma Associative<T>(a: seq<T>, b: seq<T>, c: seq<T>)
    ensures a + (b + c) == (a + b) + c
  {
  }

  function LowerChar(c: char): char
  {
    if 'A' <= c <= 'Z' then (c as int + 32) as char else c
  }

  function Lower(s: string): (r: string)
    ensures |r| == |s|
  {
    seq(|s|, i requires 0 <= i < |s| => LowerChar(s[i]))
  }
}
