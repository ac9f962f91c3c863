/** Small vocabulary shared by every module: Rust's `Option`, bytes, the UTF-8
    view of a `&str` (what `as_bytes()` returns and what `len()` counts), and
    the `f32` values the parser carries around without looking inside. */
module Prelude {

  datatype Option<+T> = None | Some(value: T)

  newtype byte = x: int | 0 <= x < 256

  /** An IEEE-754 single-precision value. The model never computes with one: it
      only stores, copies and compares them, so the type is left abstract. */
  type F32(==)

  /** `str::parse::<f32>()`, reduced to whether it succeeds and what it yields. */
  type F32Parse = string -> Option<F32>

  /** The UTF-8 encoding of one Unicode scalar value. */
  function EncodeChar(c: char): (bs: seq<byte>)
    ensures 1 <= |bs| <= 4
    ensures |bs| == 1 <==> c as int < 0x80
    ensures |bs| == 1 ==> bs[0] as int == c as int
  {
    var n := c as int;
    if n < 0x80 then [n as byte]
    else if n < 0x800 then [(0xC0 + n / 0x40) as byte, (0x80 + n % 0x40) as byte]
    else if n < 0x1_0000 then
      [(0xE0 + n / 0x1000) as byte, (0x80 + (n / 0x40) % 0x40) as byte, (0x80 + n % 0x40) as byte]
    else
      [(0xF0 + n / 0x4_0000) as byte, (0x80 + (n / 0x1000) % 0x40) as byte,
       (0x80 + (n / 0x40) % 0x40) as byte, (0x80 + n % 0x40) as byte]
  }

  /** `s.as_bytes()`: the UTF-8 encoding of a whole string. */
  function Utf8(s: string): (bs: seq<byte>)
    ensures |bs| >= |s|
    ensures |s| > 0 ==> |bs| > 0
  {
    if s == [] then [] else EncodeChar(s[0]) + Utf8(s[1..])
  }

  /** Every character is below 0x80 (each encodes to a single byte). */
  predicate IsAscii(s: string) {
    forall i :: 0 <= i < |s| ==> s[i] as int < 0x80
  }

  /** Encoding distributes over concatenation, so hashing "a then b" is hashing
      the encoding of `a + b`. */
  lemma {:induction false} Utf8Append(a: string, b: string)
    ensures Utf8(a + b) == Utf8(a) + Utf8(b)
  {
    if a == [] {
      assert a + b == b;
    } else {
      assert (a + b)[0] == a[0];
      assert (a + b)[1..] == a[1..] + b;
      Utf8Append(a[1..], b);
    }
  }

  /** On ASCII text the byte length `len()` and the character count agree;
      any other character makes the byte length strictly larger. */
  lemma {:induction false} Utf8Length(s: string)
    ensures |Utf8(s)| == |s| <==> IsAscii(s)
  {
    if s != [] {
      Utf8Length(s[1..]);
      assert IsAscii(s) <==> s[0] as int < 0x80 && IsAscii(s[1..]) by {
        if IsAscii(s) {
          forall i | 0 <= i < |s[1..]| ensures s[1..][i] as int < 0x80 { assert s[1..][i] == s[i + 1]; }
        }
        if s[0] as int < 0x80 && IsAscii(s[1..]) {
          forall i | 0 <= i < |s| ensures s[i] as int < 0x80 {
            if i > 0 { assert s[i] == s[1..][i - 1]; }
          }
        }
      }
    }
  }

  /** The values `f` yields on `xs`, in order; the elements it maps to `None`
      are dropped. */
  function FilterMap<A, B>(f: A -> Option<B>, xs: seq<A>): (ys: seq<B>)
    ensures |ys| <= |xs|
  {
    if xs == [] then []
    else
      var n := |xs| - 1;
      FilterMap(f, xs[..n]) + match f(xs[n]) case None => [] case Some(y) => [y]
  }

  lemma {:induction false} FilterMapAppend<A, B>(f: A -> Option<B>, xs: seq<A>, zs: seq<A>)
    ensures FilterMap(f, xs + zs) == FilterMap(f, xs) + FilterMap(f, zs)
    decreases |zs|
  {
    if zs == [] {
      assert xs + zs == xs;
    } else {
      var n := |zs| - 1;
      assert (xs + zs)[..|xs| + n] == xs + zs[..n];
      assert (xs + zs)[|xs| + n] == zs[n];
      FilterMapAppend(f, xs, zs[..n]);
    }
  }

  lemma {:induction false} FilterMapSound<A, B>(f: A -> Option<B>, xs: seq<A>)
    ensures forall y | y in FilterMap(f, xs) :: exists x :: x in xs && f(x) == Some(y)
  {
    if xs != [] {
      var n := |xs| - 1;
      FilterMapSound(f, xs[..n]);
      assert forall x | x in xs[..n] :: x in xs;
      assert xs[n] in xs;
    }
  }

  lemma {:induction false} FilterMapComplete<A, B>(f: A -> Option<B>, xs: seq<A>)
    ensures forall x | x in xs && f(x).Some? :: f(x).value in FilterMap(f, xs)
  {
    if xs != [] {
      var n := |xs| - 1;
      FilterMapComplete(f, xs[..n]);
      assert forall x | x in xs :: x in xs[..n] || x == xs[n];
    }
  }
}
