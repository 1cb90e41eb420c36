/**
 * The photo carousel both listing cards keep: one piece of state, the current photo index,
 * starting at 0. "next" sets it to `(index + 1) % count`, "previous" to
 * `(index - 1 + count) % count`, and a dot click sets it to the clicked index with no
 * range check. `count` is the length of the photo list, read at the moment of the click.
 * JavaScript's `%` truncates toward zero, so a negative index stays negative.
 */
module Carousel {
  import opened Wrappers

  /** The remainder is determined by any quotient-remainder decomposition. */
  lemma ModUnique(a: int, n: int, q: int, r: int)
    requires n >= 1 && a == q * n + r && 0 <= r < n
    ensures a % n == r
  {
    var q', r' := a / n, a % n;
    assert a == q' * n + r';
    assert (q - q') * n == r' - r;
    MulAtLeastOne(q - q', n);
    MulAtLeastOne(q' - q, n);
  }

  lemma MulAtLeastOne(k: int, n: int)
    requires n >= 1
    ensures k >= 1 ==> k * n >= n
  {
  }

  /** JavaScript's `a % n` for a positive divisor: the remainder has the sign of `a`. */
  function JsRemainder(a: int, n: int): (r: int)
    requires n >= 1
    ensures a >= 0 ==> 0 <= r < n
    ensures a < 0 ==> -n < r <= 0
    ensures (a - r) % n == 0
    ensures -n < a < n ==> r == a
  {
    if a >= 0 then
      ModUnique(a - a % n, n, a / n, 0);
      if a < n then ModUnique(a, n, 0, a); a % n else a % n
    else
      ModUnique(a + (-a) % n, n, -((-a) / n), 0);
      if -a < n then ModUnique(-a, n, 0, -a); -((-a) % n) else -((-a) % n)
  }

  predicate InRange(index: int, count: int) {
    0 <= index < count
  }

  /** `(prevIndex + 1) % photos.length`. With no photos this is NaN in JavaScript, hence `count >= 1`. */
  function NextIndex(index: int, count: int): int
    requires count >= 1
  {
    JsRemainder(index + 1, count)
  }

  /** `(prevIndex - 1 + photos.length) % photos.length`. */
  function PrevIndex(index: int, count: int): int
    requires count >= 1
  {
    JsRemainder(index - 1 + count, count)
  }

  /** "next" moves one photo on and wraps from the last photo to the first. */
  lemma NextStep(index: int, count: int)
    requires count >= 1 && InRange(index, count)
    ensures InRange(NextIndex(index, count), count)
    ensures NextIndex(index, count) == if index == count - 1 then 0 else index + 1
  {
  }

  /** "previous" moves one photo back and wraps from the first photo to the last. */
  lemma PrevStep(index: int, count: int)
    requires count >= 1 && InRange(index, count)
    ensures InRange(PrevIndex(index, count), count)
    ensures PrevIndex(index, count) == if index == 0 then count - 1 else index - 1
  {
  }

  /** "previous" undoes "next", and "next" undoes "previous". */
  lemma NextPrevInverse(index: int, count: int)
    requires count >= 1 && InRange(index, count)
    ensures PrevIndex(NextIndex(index, count), count) == index
    ensures NextIndex(PrevIndex(index, count), count) == index
  {
    NextStep(index, count);
    PrevStep(index, count);
    NextStep(PrevIndex(index, count), count);
    PrevStep(NextIndex(index, count), count);
  }

  /** The index after `k` clicks on "next". */
  function NextTimes(index: int, count: int, k: nat): int
    requires count >= 1
  {
    if k == 0 then index else NextIndex(NextTimes(index, count, k - 1), count)
  }

  /** `k` clicks on "next" advance the index by `k` modulo the photo count. */
  lemma {:induction false} NextTimesAdvances(index: int, count: int, k: nat)
    requires count >= 1 && InRange(index, count)
    ensures NextTimes(index, count, k) == (index + k) % count
  {
    if k > 0 {
      NextTimesAdvances(index, count, k - 1);
      var a := index + k - 1;
      var before := NextTimes(index, count, k - 1);
      assert before == a % count;
      NextInRange(before, count);
      ModSucc(a, count);
      assert a + 1 == index + k;
      assert NextTimes(index, count, k) == NextIndex(before, count);
    } else {
      ModUnique(index, count, 0, index);
    }
  }

  /** On an index in range, "next" is the mathematical `(index + 1) mod count`. */
  lemma NextInRange(index: int, count: int)
    requires count >= 1 && InRange(index, count)
    ensures NextIndex(index, count) == (index + 1) % count
  {
  }

  /** Reducing before adding one does not change the remainder. */
  lemma ModSucc(a: int, count: int)
    requires count >= 1 && a >= 0
    ensures (a % count + 1) % count == (a + 1) % count
  {
    var q, r := a / count, a % count;
    assert a == q * count + r;
    if r + 1 < count {
      ModUnique(r + 1, count, 0, r + 1);
      ModUnique(a + 1, count, q, r + 1);
    } else {
      ModUnique(r + 1, count, 1, 0);
      ModUnique(a + 1, count, q + 1, 0);
    }
  }

  /** Clicking "next" once per photo comes back to the photo one started from. */
  lemma FullCycle(index: int, count: int)
    requires count >= 1 && InRange(index, count)
    ensures NextTimes(index, count, count) == index
  {
    NextTimesAdvances(index, count, count);
    ModUnique(index + count, count, 1, index);
  }

  /** From an index past the end (left by an unchecked dot click) either button brings the index back in range. */
  lemma RecoverFromPastEnd(index: int, count: int)
    requires count >= 1 && index >= count
    ensures InRange(NextIndex(index, count), count)
    ensures InRange(PrevIndex(index, count), count)
  {
  }

  /** From a negative index above `-count`, "next" climbs one step at a time and leaves the index negative until it reaches 0. */
  lemma NextFromNegative(index: int, count: int)
    requires count >= 1 && -count < index < 0
    ensures NextIndex(index, count) == index + 1
  {
  }

  /** `photos[currentPhotoIndex]`: the photo shown, or `undefined` when the index is out of range. */
  function PhotoAt(photos: seq<string>, index: int): (r: Option<string>)
    ensures r.Some? <==> InRange(index, |photos|)
    ensures r.Some? ==> r.value == photos[index] && r.value in photos
  {
    if InRange(index, |photos|) then Some(photos[index]) else None
  }

  /** The carousel state of one mounted card. */
  class PhotoCarousel {
    var index: int

    /** A freshly mounted card shows the first photo: `useState(0)`. */
    constructor ()
      ensures index == 0
    {
      index := 0;
    }

    /** The state invariant for a photo list of length `count`. */
    predicate ShowsPhoto(count: int)
      reads this
    {
      InRange(index, count)
    }

    /** `nextPhoto`. */
    method Next(count: int)
      requires count >= 1
      modifies this
      ensures index == NextIndex(old(index), count)
      ensures old(ShowsPhoto(count)) ==> ShowsPhoto(count)
      ensures old(index) >= count ==> ShowsPhoto(count)
    {
      index := JsRemainder(index + 1, count);
    }

    /** `prevPhoto`. */
    method Prev(count: int)
      requires count >= 1
      modifies this
      ensures index == PrevIndex(old(index), count)
      ensures old(ShowsPhoto(count)) ==> ShowsPhoto(count)
      ensures old(index) >= count ==> ShowsPhoto(count)
    {
      index := JsRemainder(index - 1 + count, count);
    }

    /** `onDotClick={setCurrentPhotoIndex}`: the index becomes `target`, unchecked. */
    method Jump(target: int)
      modifies this
      ensures index == target
    {
      index := target;
    }
  }

  /** A mounted card with at least one photo, clicked next and then previous, shows its first photo again. */
  method NextThenPrev(count: int) returns (shown: int)
    requires count >= 1
    ensures shown == 0
  {
    var carousel := new PhotoCarousel();
    carousel.Next(count);
    carousel.Prev(count);
    NextPrevInverse(0, count);
    shown := carousel.index;
  }
}
