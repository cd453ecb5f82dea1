/**
 * Edge cleanup after rotation: a fresh transparent buffer of the same size
 * receives every pixel of the rotated buffer whose alpha byte is non-zero.
 * Pixels with partial alpha are kept as they are; only fully transparent
 * pixels are replaced, by the all-zero pixel.
 */
module Cleanup {
  import opened Pixels

  /** What the cleanup writes for one pixel of the rotated buffer. */
  function Cleaned(p: Pixel): (q: Pixel)
    ensures q.a == p.a                     // the alpha channel never changes, partial alpha included
    ensures p.a != 0 ==> q == p            // every pixel with some opacity is kept as it is
    ensures q.a == 0 ==> q == Transparent  // an invisible pixel comes out all-zero
  {
    if p.a != 0 then p else Transparent
  }

  /** The only pixels the cleanup changes are fully transparent ones with non-zero colour bytes. */
  lemma CleanedChangesOnlyInvisibleColour(p: Pixel)
    ensures Cleaned(p) != p <==> p.a == 0 && p != Transparent
  {
  }

  /** Every fully transparent pixel of `img` is the all-zero pixel. */
  ghost predicate IsClean(img: array2<Pixel>)
    reads img
  {
    forall x, y :: 0 <= x < img.Length0 && 0 <= y < img.Length1 && img[x, y].a == 0 ==> img[x, y] == Transparent
  }

  /** `out` has the size of `img` and holds the cleaned version of each of its pixels. */
  ghost predicate IsCleanupOf(img: array2<Pixel>, out: array2<Pixel>)
    reads img, out
  {
    out.Length0 == img.Length0 && out.Length1 == img.Length1 &&
    forall x, y :: 0 <= x < out.Length0 && 0 <= y < out.Length1 ==> out[x, y] == Cleaned(img[x, y])
  }

  /** The cleanup loop of the generator, over the `diameter` x `diameter` rotated buffer. */
  method CleanEdges(rotated: array2<Pixel>, diameter: nat) returns (finalImg: array2<Pixel>)
    requires rotated.Length0 == diameter && rotated.Length1 == diameter
    ensures IsCleanupOf(rotated, finalImg)
    ensures IsClean(finalImg)
    ensures finalImg != rotated
  {
    finalImg := new Pixel[diameter, diameter]((i, j) => Transparent);
    for y := 0 to diameter
      invariant forall i, j :: 0 <= i < diameter && 0 <= j < diameter ==>
        finalImg[i, j] == if j < y then Cleaned(rotated[i, j]) else Transparent
    {
      for x := 0 to diameter
        invariant forall i, j :: 0 <= i < diameter && 0 <= j < diameter ==>
          finalImg[i, j] == if j < y || (j == y && i < x) then Cleaned(rotated[i, j]) else Transparent
      {
        var pixel := rotated[x, y];
        if pixel.a != 0 {
          finalImg[x, y] := pixel;
        }
      }
    }
  }

  /** Cleaning a clean buffer copies it unchanged. */
  lemma CleanupOfCleanIsCopy(img: array2<Pixel>, out: array2<Pixel>)
    requires IsClean(img) && IsCleanupOf(img, out)
    ensures forall x, y :: 0 <= x < out.Length0 && 0 <= y < out.Length1 ==> out[x, y] == img[x, y]
  {
  }

  /** The cleanup is idempotent: cleaning its own output again changes no pixel. */
  lemma CleanupIdempotent(rotated: array2<Pixel>, once: array2<Pixel>, twice: array2<Pixel>)
    requires IsCleanupOf(rotated, once) && IsCleanupOf(once, twice)
    ensures twice.Length0 == once.Length0 && twice.Length1 == once.Length1
    ensures forall x, y :: 0 <= x < twice.Length0 && 0 <= y < twice.Length1 ==> twice[x, y] == once[x, y]
  {
  }
}
