/**
 * The skills carousel: eight skills shown `itemsPerSlide` at a time, an
 * index moved a slide forward or back with wrap-around, and the CSS shift
 * derived from it.
 */
module SkillsCarousel {
  import opened JsMath

  const SkillCount: nat := 8

  datatype Carousel = Carousel(currentIndex: int, translateValue: real, itemsPerSlide: nat)

  /** The slide widths the layout can choose. */
  predicate ValidSlide(k: nat)
  {
    1 <= k <= 3
  }

  const Initial := Carousel(0, 0.0, 3)

  /** `updateTranslateValue`: minus the index in percent of a slide. */
  function Translate(index: int, k: nat): (t: real)
    requires ValidSlide(k)
    ensures t <= 0.0 <==> index >= 0
    ensures t * (k as real) == -(100.0 * index as real)
  {
    -(100.0 * index as real / k as real)
  }

  /** `next`: forward one slide, back to the start after the last full
   *  slide. */
  function Next(c: Carousel): (r: Carousel)
    requires ValidSlide(c.itemsPerSlide)
    ensures r.itemsPerSlide == c.itemsPerSlide && r.translateValue == Translate(r.currentIndex, r.itemsPerSlide)
    ensures c.currentIndex >= 0 ==> 0 <= r.currentIndex < SkillCount
    ensures r.currentIndex == 0 || r.currentIndex == c.currentIndex + c.itemsPerSlide
  {
    var i := if c.currentIndex < SkillCount - c.itemsPerSlide then c.currentIndex + c.itemsPerSlide else 0;
    c.(currentIndex := i, translateValue := Translate(i, c.itemsPerSlide))
  }

  /** `prev`, as written: back one slide, or from the start to
   *  `SkillCount - itemsPerSlide`. */
  function Prev(c: Carousel): (r: Carousel)
    requires ValidSlide(c.itemsPerSlide)
    ensures r.itemsPerSlide == c.itemsPerSlide && r.translateValue == Translate(r.currentIndex, r.itemsPerSlide)
    ensures c.currentIndex <= SkillCount ==> r.currentIndex < SkillCount
    ensures c.currentIndex > 0 ==> r.currentIndex == c.currentIndex - c.itemsPerSlide
    ensures c.currentIndex <= 0 ==> r.currentIndex == SkillCount - c.itemsPerSlide
  {
    var i := if c.currentIndex > 0 then c.currentIndex - c.itemsPerSlide else SkillCount - c.itemsPerSlide;
    c.(currentIndex := i, translateValue := Translate(i, c.itemsPerSlide))
  }

  /** Finding, as written: three slides back from the start with three
   *  skills a slide lands on index -1, shifting the strip right by a third
   *  of a slide, and `next` from there no longer lands on a slide start. */
  lemma PrevGoesNegative()
    ensures var c := Prev(Prev(Prev(Initial)));
            && c.currentIndex == -1 && c.translateValue > 0.0
            && Next(c).currentIndex == 2
  {
  }

  /** A slide start: a multiple of the slide width inside the list. */
  predicate Aligned(i: int, k: nat)
    requires ValidSlide(k)
  {
    0 <= i < SkillCount && i % k == 0
  }

  /** `prev` as the wrap-around evidently means it: back one slide, never
   *  below zero, and from the start to the start of the last slide. */
  function PrevIntended(c: Carousel): (r: Carousel)
    requires ValidSlide(c.itemsPerSlide)
    ensures r.itemsPerSlide == c.itemsPerSlide && r.translateValue == Translate(r.currentIndex, r.itemsPerSlide)
    ensures c.currentIndex < SkillCount ==> 0 <= r.currentIndex < SkillCount
  {
    var k := c.itemsPerSlide;
    var i := if c.currentIndex > 0 then (if c.currentIndex - k >= 0 then c.currentIndex - k else 0)
             else (CeilDiv(SkillCount, k) - 1) * k;
    c.(currentIndex := i, translateValue := Translate(i, k))
  }

  /** Corrected: on slide starts `next` and the intended `prev` undo each
   *  other and stay on slide starts, so the index never leaves the list. */
  lemma NextPrevIntendedInverse(c: Carousel)
    requires ValidSlide(c.itemsPerSlide) && Aligned(c.currentIndex, c.itemsPerSlide)
    ensures Aligned(Next(c).currentIndex, c.itemsPerSlide) && Aligned(PrevIntended(c).currentIndex, c.itemsPerSlide)
    ensures PrevIntended(Next(c)) == c.(translateValue := Translate(c.currentIndex, c.itemsPerSlide))
    ensures Next(PrevIntended(c)) == c.(translateValue := Translate(c.currentIndex, c.itemsPerSlide))
  {
    LastSlideStart(c.itemsPerSlide);
    NextStaysAligned(c);
    PrevUndoesNext(c);
    NextUndoesPrev(c);
  }

  /** Where the intended `prev` goes from the first slide. */
  lemma LastSlideStart(k: nat)
    requires ValidSlide(k)
    ensures (CeilDiv(SkillCount, k) - 1) * k == SkillCount - (if k == 3 then 2 else k)
  {
    if k == 1 {
      assert CeilDiv(SkillCount, 1) == 8;
    } else if k == 2 {
      assert CeilDiv(SkillCount, 2) == 4;
    } else {
      assert CeilDiv(SkillCount, 3) == 3;
    }
  }

  lemma NextStaysAligned(c: Carousel)
    requires ValidSlide(c.itemsPerSlide) && Aligned(c.currentIndex, c.itemsPerSlide)
    requires (CeilDiv(SkillCount, c.itemsPerSlide) - 1) * c.itemsPerSlide == SkillCount - (if c.itemsPerSlide == 3 then 2 else c.itemsPerSlide)
    ensures Aligned(Next(c).currentIndex, c.itemsPerSlide) && Aligned(PrevIntended(c).currentIndex, c.itemsPerSlide)
  {
  }

  lemma PrevUndoesNext(c: Carousel)
    requires ValidSlide(c.itemsPerSlide) && Aligned(c.currentIndex, c.itemsPerSlide)
    requires (CeilDiv(SkillCount, c.itemsPerSlide) - 1) * c.itemsPerSlide == SkillCount - (if c.itemsPerSlide == 3 then 2 else c.itemsPerSlide)
    ensures PrevIntended(Next(c)) == c.(translateValue := Translate(c.currentIndex, c.itemsPerSlide))
  {
  }

  lemma NextUndoesPrev(c: Carousel)
    requires ValidSlide(c.itemsPerSlide) && Aligned(c.currentIndex, c.itemsPerSlide)
    requires (CeilDiv(SkillCount, c.itemsPerSlide) - 1) * c.itemsPerSlide == SkillCount - (if c.itemsPerSlide == 3 then 2 else c.itemsPerSlide)
    ensures Next(PrevIntended(c)) == c.(translateValue := Translate(c.currentIndex, c.itemsPerSlide))
  {
  }

  /** `goToSkill(index)`. */
  function GoToSkill(c: Carousel, index: int): (r: Carousel)
    requires ValidSlide(c.itemsPerSlide)
    ensures r.currentIndex == index && r.itemsPerSlide == c.itemsPerSlide
    ensures r.translateValue == Translate(index, c.itemsPerSlide)
  {
    c.(currentIndex := index, translateValue := Translate(index, c.itemsPerSlide))
  }

  /** The slide width for a window width: 3 from 1024, 2 from 640, else 1. */
  function ItemsPerSlide(width: int): (k: nat)
    ensures ValidSlide(k)
    ensures k == 3 <==> width >= 1024
    ensures k == 1 <==> width < 640
  {
    if width >= 1024 then 3 else if width >= 640 then 2 else 1
  }

  /** Wider windows never show fewer skills a slide. */
  lemma ItemsPerSlideMonotone(w1: int, w2: int)
    requires w1 <= w2
    ensures ItemsPerSlide(w1) <= ItemsPerSlide(w2)
  {
  }

  /** `updateItemsPerSlide`: the index is kept as it is. */
  function UpdateItemsPerSlide(c: Carousel, width: int): (r: Carousel)
    ensures r.currentIndex == c.currentIndex && r.itemsPerSlide == ItemsPerSlide(width)
    ensures r.translateValue == Translate(c.currentIndex, r.itemsPerSlide)
  {
    var k := ItemsPerSlide(width);
    c.(itemsPerSlide := k, translateValue := Translate(c.currentIndex, k))
  }

  /** `getDotsCount`: one dot per slide, the last possibly partial. */
  function DotsCount(k: nat): (n: nat)
    requires ValidSlide(k)
    ensures (n - 1) * k < SkillCount <= n * k
  {
    CeilDiv(SkillCount, k)
  }

  /** `handleKeyPress`: the left and right arrows move; other keys do
   *  nothing. */
  function HandleKeyPress(c: Carousel, key: string): (r: Carousel)
    requires ValidSlide(c.itemsPerSlide)
    ensures key == "ArrowLeft" ==> r == Prev(c)
    ensures key == "ArrowRight" ==> r == Next(c)
    ensures key != "ArrowLeft" && key != "ArrowRight" ==> r == c
  {
    if key == "ArrowLeft" then Prev(c) else if key == "ArrowRight" then Next(c) else c
  }
}
