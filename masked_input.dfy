/**
 * The masked-input buffer of `entry_backend_harfbuzz_update`
 * (src/entry_backend/harfbuzz.c): when the host hides what is typed, the
 * input is drawn as its character count repeated in a masking character,
 * whose UTF-8 bytes are copied one character after another into a fresh
 * buffer followed by a NUL.
 */
module MaskedInput {
  import opened Base

  /** The masking character's bytes written `n` times, with nothing between them. */
  function Repeat(glyph: Text, n: nat): (r: Text)
  {
    if n == 0 then [] else Repeat(glyph, n - 1) + glyph
  }

  /** The nested copy loops, then the terminating NUL. */
  method BuildMasked(nchars: nat, glyph: Text) returns (buf: array<byte>)
    ensures fresh(buf)
    ensures buf[..] == Repeat(glyph, nchars) + [0]
  {
    var size := |glyph|;
    RepeatLength(glyph, nchars);
    buf := new byte[1 + nchars * size];
    for i := 0 to nchars
      invariant buf[..i * size] == Repeat(glyph, i)
    {
      MulStep(i, nchars, size);
      for j := 0 to size
        invariant buf[..i * size + j] == Repeat(glyph, i) + glyph[..j]
      {
        ghost var before := buf[..];
        buf[i * size + j] := glyph[j];
        WriteExtends(before, i * size + j, glyph[j]);
        assert glyph[..j + 1] == glyph[..j] + [glyph[j]];
      }
      assert glyph[..size] == glyph;
    }
    buf[size * nchars] := 0;
    assert buf[..] == buf[..nchars * size] + [buf[nchars * size]];
  }

  /** Writing just past a prefix extends the prefix by the byte written. */
  lemma WriteExtends(before: seq<byte>, k: nat, v: byte)
    requires k < |before|
    ensures before[k := v][..k + 1] == before[..k] + [v]
  {
  }

  lemma MulStep(i: nat, n: nat, size: nat)
    requires i < n
    ensures (i + 1) * size == i * size + size
    ensures (i + 1) * size <= n * size
  {
  }

  lemma {:induction false} RepeatLength(glyph: Text, n: nat)
    ensures |Repeat(glyph, n)| == n * |glyph|
  {
    if n > 0 {
      RepeatLength(glyph, n - 1);
    }
  }

  /**
   * Copy m of the masking character occupies bytes m*size up to (m+1)*size
   * of the masked text: the character is repeated with no separator.
   */
  lemma {:induction false} RepeatAt(glyph: Text, n: nat, m: nat, j: nat)
    requires m < n && j < |glyph|
    ensures |Repeat(glyph, n)| == n * |glyph|
    ensures m * |glyph| + j < n * |glyph|
    ensures Repeat(glyph, n)[m * |glyph| + j] == glyph[j]
  {
    RepeatLength(glyph, n);
    RepeatLength(glyph, n - 1);
    MulStep(m, n, |glyph|);
    if m < n - 1 {
      RepeatAt(glyph, n - 1, m, j);
    } else {
      assert m * |glyph| == |Repeat(glyph, n - 1)|;
    }
  }

  /** The C string a buffer holds: its bytes before the first NUL. */
  function UpToNul(s: Text): (t: Text)
    ensures t <= s && 0 !in t
    ensures |t| < |s| ==> s[|t|] == 0
  {
    if s == [] || s[0] == 0 then [] else [s[0]] + UpToNul(s[1..])
  }

  lemma {:induction false} NoNulInRepeat(glyph: Text, n: nat)
    requires 0 !in glyph
    ensures 0 !in Repeat(glyph, n)
  {
    if n > 0 {
      NoNulInRepeat(glyph, n - 1);
    }
  }

  /**
   * A masking character with no NUL byte in it is drawn `nchars` times:
   * the text the buffer holds is the whole repetition, cut nowhere.
   */
  lemma MaskedText(glyph: Text, nchars: nat)
    requires 0 !in glyph
    ensures UpToNul(Repeat(glyph, nchars) + [0]) == Repeat(glyph, nchars)
  {
    var r := Repeat(glyph, nchars);
    NoNulInRepeat(glyph, nchars);
    var t := UpToNul(r + [0]);
    assert forall k | 0 <= k < |r| :: (r + [0])[k] == r[k] != 0;
    assert forall k | 0 <= k < |t| :: t[k] == (r + [0])[k] && t[k] in t;
    assert (r + [0])[|r|] == 0;
    assert |t| <= |r|;
    assert |t| >= |r|;
  }
}
