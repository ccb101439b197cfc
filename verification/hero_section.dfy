/** The hero banner's background carousel: a `currentSlide` index over a fixed
    list of three slides, moved by the arrows, the indicator dots and a recurring
    timer. */
module HeroSection {
  import opened SlideIndex
  import Seqs

  /** `heroSlides.length`: the campus, students and graduation images. */
  const SlideCount: nat := 3

  class Carousel {
    var currentSlide: int

    ghost predicate Valid()
      reads this
    {
      0 <= currentSlide < SlideCount
    }

    /** Mounting the section: `useState(0)`. */
    constructor ()
      ensures Valid() && currentSlide == 0
    {
      currentSlide := 0;
    }

    /** The right arrow. */
    method NextSlide()
      requires Valid()
      modifies this
      ensures Valid()
      ensures currentSlide == Next(old(currentSlide), SlideCount)
      ensures old(currentSlide) == SlideCount - 1 ==> currentSlide == 0
    {
      currentSlide := (currentSlide + 1) % SlideCount;
    }

    /** The left arrow. */
    method PrevSlide()
      requires Valid()
      modifies this
      ensures Valid()
      ensures currentSlide == Prev(old(currentSlide), SlideCount)
      ensures old(currentSlide) == 0 ==> currentSlide == SlideCount - 1
    {
      currentSlide := (currentSlide - 1 + SlideCount) % SlideCount;
    }

    /** One firing of the 5000 ms interval: the same step as the right arrow. */
    method Tick()
      requires Valid()
      modifies this
      ensures Valid()
      ensures currentSlide == Next(old(currentSlide), SlideCount)
    {
      currentSlide := (currentSlide + 1) % SlideCount;
    }

    /** An indicator dot; the dots are rendered one per slide, so `index` is a slide position. */
    method GoToSlide(index: int)
      requires 0 <= index < SlideCount
      modifies this
      ensures Valid() && currentSlide == index
    {
      currentSlide := index;
    }


    /** Exactly one of the slides is visible, the current one. */
    lemma ExactlyOneShown()
      requires Valid()
      ensures Seqs.Count(Highlighted(currentSlide, SlideCount)) == 1
    {
      ExactlyOneHighlighted(currentSlide, SlideCount);
    }
  }

  /** Seventeen ticks after mounting, with no manual input, show the last slide. */
  lemma SeventeenTicks()
    ensures AfterTicks(17, SlideCount) == 2
  {
    AfterTicksIsMod(17, SlideCount);
  }
}
