/**
 * Colour inversion of an RGBA pixel buffer, applied before a second decoding
 * attempt for light-on-dark codes: the three colour channels of every pixel
 * become `255 - v` in a fresh buffer, alpha is copied.
 */
module ImageInvert {

  /** One element of a `Uint8ClampedArray`. */
  type Byte = b: int | 0 <= b <= 255

  /** Channel 3 of every four is alpha. */
  predicate IsAlpha(j: nat) {
    j % 4 == 3
  }

  /** The inverted buffer, element by element. */
  function Inverted(s: seq<Byte>): (r: seq<Byte>)
    ensures |r| == |s|
  {
    seq(|s|, j requires 0 <= j < |s| => if IsAlpha(j) then s[j] else 255 - s[j])
  }

  /** Inverting twice gives back the buffer. */
  lemma {:induction false} InvertedTwice(s: seq<Byte>)
    ensures Inverted(Inverted(s)) == s
  {
    var once := Inverted(s);
    forall j | 0 <= j < |s| ensures Inverted(once)[j] == s[j] {
      assert once[j] == if IsAlpha(j) then s[j] else 255 - s[j];
    }
  }

  /** For a pixel starting at `i`, red, green and blue are inverted and alpha is kept. */
  lemma {:induction false} PixelChannels(s: seq<Byte>, i: nat)
    requires i % 4 == 0 && i + 3 < |s|
    ensures Inverted(s)[i] == 255 - s[i]
    ensures Inverted(s)[i + 1] == 255 - s[i + 1]
    ensures Inverted(s)[i + 2] == 255 - s[i + 2]
    ensures Inverted(s)[i + 3] == s[i + 3]
  {
    assert !IsAlpha(i) && !IsAlpha(i + 1) && !IsAlpha(i + 2) && IsAlpha(i + 3);
  }

  /**
   * The inversion loop: `i` steps by 4 over the buffer and writes the four
   * channels of one pixel. A write past the end of a typed array is
   * dropped, which the guards on the last three writes stand for when the
   * length is not a multiple of 4. The source buffer is only read.
   */
  method InvertRgb(data: array<Byte>) returns (inverted: array<Byte>)
    ensures fresh(inverted)
    ensures inverted[..] == Inverted(data[..])
  {
    inverted := new Byte[data.Length](_ => 0);
    var i := 0;
    while i < data.Length
      invariant i % 4 == 0
      invariant 0 <= i <= data.Length + 3
      invariant forall j :: 0 <= j < i && j < data.Length ==>
                  inverted[j] == if IsAlpha(j) then data[j] else 255 - data[j]
      decreases data.Length - i
    {
      inverted[i] := 255 - data[i];
      if i + 1 < data.Length {
        inverted[i + 1] := 255 - data[i + 1];
      }
      if i + 2 < data.Length {
        inverted[i + 2] := 255 - data[i + 2];
      }
      if i + 3 < data.Length {
        inverted[i + 3] := data[i + 3];
      }
      i := i + 4;
    }
  }
}
