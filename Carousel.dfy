/** The image carousel of one diary card: one slide per photo, in photo order,
    the first one shown initially, all advancing every three seconds. */
module Carousel {

  /** A photo as the card sees it; its content only reaches the page through
      a transient object URL, so the model keeps its file name. */
  datatype Photo = Photo(name: string)

  /** One slide of the carousel: its CSS class, its auto-advance interval in
      milliseconds and the `alt` text of its image. */
  datatype Slide = Slide(cssClass: string, interval: nat, alt: string)

  const ActiveClass: string := "carousel-item active"
  const ItemClass: string := "carousel-item"
  const IntervalMs: nat := 3000

  /** The slide built for the photo at position `index`. */
  function SlideFor(photo: Photo, index: nat): Slide {
    Slide(if index == 0 then ActiveClass else ItemClass, IntervalMs, photo.name)
  }

  /** The slides of a card, mapped from its photos. */
  function Slides(photos: seq<Photo>): (r: seq<Slide>)
    ensures |r| == |photos|
    ensures forall i :: 0 <= i < |r| ==> r[i].alt == photos[i].name && r[i].interval == IntervalMs
    ensures forall i :: 0 <= i < |r| ==> (r[i].cssClass == ActiveClass <==> i == 0)
    ensures forall i :: 0 <= i < |r| ==> r[i].cssClass in {ActiveClass, ItemClass}
  {
    seq(|photos|, i requires 0 <= i < |photos| => SlideFor(photos[i], i))
  }

  /** The number of slides marked active. */
  function ActiveCount(slides: seq<Slide>): nat {
    if slides == [] then 0
    else (if slides[0].cssClass == ActiveClass then 1 else 0) + ActiveCount(slides[1..])
  }

  lemma {:induction false} NoneActive(slides: seq<Slide>)
    requires forall i :: 0 <= i < |slides| ==> slides[i].cssClass != ActiveClass
    ensures ActiveCount(slides) == 0
  {
    if slides != [] {
      NoneActive(slides[1..]);
    }
  }

  /** A card with photos shows exactly one active slide; a card without
      photos has an empty carousel. */
  lemma ExactlyOneActive(photos: seq<Photo>)
    ensures ActiveCount(Slides(photos)) == if photos == [] then 0 else 1
  {
    var r := Slides(photos);
    if photos != [] {
      NoneActive(r[1..]);
    }
  }

  /** Adding a photo at the end adds one inactive slide at the end and leaves
      the earlier slides as they were. */
  lemma SlidesSnoc(photos: seq<Photo>, p: Photo)
    requires photos != []
    ensures Slides(photos + [p]) == Slides(photos) + [Slide(ItemClass, IntervalMs, p.name)]
  {
  }
}
