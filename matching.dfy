/** Template scoring (crack.py, `same_image`). */
module TemplateMatch {
  import opened Errors
  import opened Images
  import opened PixelCompare

  /** `is_pixel_equal(image, template, x, y)` returns True. */
  predicate Matches(image: Image<Rgba>, template: Image<Rgba>, x: nat, y: nat) {
    IsPixelEqual(image, template, x, y) == Ok(true)
  }

  /** Number of rows y < h at which column x of the two images matches. */
  function ColumnCount(image: Image<Rgba>, template: Image<Rgba>, x: nat, h: nat): (n: nat)
    ensures n <= h
  {
    if h == 0 then 0
    else ColumnCount(image, template, x, h - 1) + (if Matches(image, template, x, h - 1) then 1 else 0)
  }

  /** Number of coordinates in [0, w) x [0, h) at which the images match:
      the final value of `count` in `same_image`. */
  function MatchCount(image: Image<Rgba>, template: Image<Rgba>, w: nat, h: nat): (n: nat)
    ensures n <= w * h
  {
    if w == 0 then 0
    else MatchCount(image, template, w - 1, h) + ColumnCount(image, template, w - 1, h)
  }

  /** The matching coordinates as a set, an independent account of the count. */
  ghost function MatchSet(image: Image<Rgba>, template: Image<Rgba>, w: nat, h: nat): set<(nat, nat)>
  {
    set x: nat, y: nat | x < w && y < h && Matches(image, template, x, y) :: (x, y)
  }

  /** What `same_image(image, template)` returns or raises.  The float test
      `count / (w * h) > 0.99` is the integer test `100 * count > 99 * w * h`. */
  function Verdict(image: Image<Rgba>, template: Image<Rgba>): Result<bool>
  {
    var w, h := image.width, image.height;
    if w == 0 || h == 0 then Err(ZeroDivisionError)
    else if template.width < w || template.height < h then Err(IndexError)
    else Ok(100 * MatchCount(image, template, w, h) > 99 * (w * h))
  }

  /** `same_image`: counts the matching pixels over the candidate's own
      width x height grid, column by column, then compares the ratio with
      the threshold.  The first out-of-range read of the template raises. */
  method SameImage(image: Image<Rgba>, template: Image<Rgba>) returns (r: Result<bool>)
    ensures r == Verdict(image, template)
  {
    var count := 0;
    var x := 0;
    while x < image.width
      invariant 0 <= x <= image.width
      invariant x > 0 && image.height > 0 ==> x <= template.width && image.height <= template.height
      invariant count == MatchCount(image, template, x, image.height)
    {
      var y := 0;
      while y < image.height
        invariant 0 <= y <= image.height
        invariant y > 0 ==> x < template.width && y <= template.height
        invariant count == MatchCount(image, template, x, image.height) + ColumnCount(image, template, x, y)
      {
        var equal := IsPixelEqual(image, template, x, y);
        if equal.Err? {
          return Err(equal.error);
        }
        if equal.value {
          count := count + 1;
        }
        y := y + 1;
      }
      x := x + 1;
    }
    if image.width * image.height == 0 {
      return Err(ZeroDivisionError);
    }
    r := Ok(100 * count > 99 * (image.width * image.height));
  }

  /** The matching coordinates of column x among rows y < h. */
  ghost function ColumnSet(image: Image<Rgba>, template: Image<Rgba>, x: nat, h: nat): set<(nat, nat)>
  {
    set y: nat | y < h && Matches(image, template, x, y) :: (x, y)
  }

  lemma {:induction false} ColumnCountIsCardinality(image: Image<Rgba>, template: Image<Rgba>, x: nat, h: nat)
    ensures ColumnCount(image, template, x, h) == |ColumnSet(image, template, x, h)|
  {
    if h > 0 {
      ColumnCountIsCardinality(image, template, x, h - 1);
      var s, s' := ColumnSet(image, template, x, h), ColumnSet(image, template, x, h - 1);
      var last: set<(nat, nat)> := if Matches(image, template, x, h - 1) then {(x, h - 1)} else {};
      forall p | p in s ensures p in s' + last {
      }
      forall p | p in s' + last ensures p in s {
      }
      assert s == s' + last;
      assert (x, h - 1) !in s';
    } else {
      assert ColumnSet(image, template, x, h) == {};
    }
  }

  /** `count` is exactly the number of matching coordinates of the grid. */
  lemma {:induction false} MatchCountIsCardinality(image: Image<Rgba>, template: Image<Rgba>, w: nat, h: nat)
    ensures MatchCount(image, template, w, h) == |MatchSet(image, template, w, h)|
  {
    if w > 0 {
      MatchCountIsCardinality(image, template, w - 1, h);
      ColumnCountIsCardinality(image, template, w - 1, h);
      var s, s', column := MatchSet(image, template, w, h), MatchSet(image, template, w - 1, h), ColumnSet(image, template, w - 1, h);
      forall p | p in s ensures p in s' + column {
      }
      forall p | p in s' + column ensures p in s {
      }
      assert s == s' + column;
      forall p | p in column ensures p !in s' {
      }
      assert s' !! column;
    } else {
      assert MatchSet(image, template, w, h) == {};
    }
  }

  lemma {:induction false} SelfColumnCount(image: Image<Rgba>, x: nat, h: nat)
    requires x < image.width && h <= image.height
    ensures ColumnCount(image, image, x, h) == h
  {
    if h > 0 {
      SelfColumnCount(image, x, h - 1);
      PixelEqualReflexive(At(image, x, h - 1));
    }
  }

  /** Every pixel of an image matches itself. */
  lemma {:induction false} SelfMatchCount(image: Image<Rgba>, w: nat)
    requires w <= image.width
    ensures MatchCount(image, image, w, image.height) == w * image.height
  {
    if w > 0 {
      SelfMatchCount(image, w - 1);
      SelfColumnCount(image, w - 1, image.height);
    }
  }

  /** A non-empty image is always accepted as its own template; an empty one
      raises ZeroDivisionError. */
  lemma SelfAccepted(image: Image<Rgba>)
    ensures Verdict(image, image) == if image.width * image.height == 0 then Err(ZeroDivisionError) else Ok(true)
  {
    SelfMatchCount(image, image.width);
  }

  lemma {:induction false} NoColumnMatch(image: Image<Rgba>, template: Image<Rgba>, x: nat, h: nat)
    requires forall y: nat | y < h :: !Matches(image, template, x, y)
    ensures ColumnCount(image, template, x, h) == 0
  {
    if h > 0 {
      NoColumnMatch(image, template, x, h - 1);
    }
  }

  /** When no pixel of the candidate is within the threshold of the
      template's, a large enough template is rejected. */
  lemma {:induction false} NoMatchRejected(image: Image<Rgba>, template: Image<Rgba>, w: nat)
    requires image.width > 0 && image.height > 0
    requires template.width >= image.width && template.height >= image.height
    requires w <= image.width
    requires forall x: nat, y: nat | x < image.width && y < image.height ::
      !PixelEqual(At(image, x, y), At(template, x, y))
    ensures MatchCount(image, template, w, image.height) == 0
    ensures w == image.width ==> Verdict(image, template) == Ok(false)
  {
    if w > 0 {
      NoMatchRejected(image, template, w - 1);
      NoColumnMatch(image, template, w - 1, image.height);
    }
  }
}
