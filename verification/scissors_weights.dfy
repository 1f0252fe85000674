/**
 * Edge weights for the Intelligent Scissors search (class `ScissorsWeights`
 * of the `scissors` package): the cross-gradient of an image at an edge, and
 * the two weighers built from it, which make an edge cheap when it runs
 * along a strong brightness edge of the image.
 */
module ScissorsWeights {
  import opened Exceptions

  /** A pixel sample value; rasters of 8-bit bands hold samples in [0, 255]. */
  type Sample = s: int | 0 <= s <= 255

  /**
   * A raster: its width and height and the sample of band `b` at pixel
   * (`x`, `y`), as `getSample(x, y, b)` returns it.
   */
  datatype Raster = Raster(width: int, height: int, sample: (int, int, int) -> Sample)

  /**
   * An edge of the image graph: the pixel of its start vertex and its
   * direction, 0 to 7 counter-clockwise from "right" (2 is "up").
   */
  datatype ImageEdge = ImageEdge(x: int, y: int, dir: int)

  /** The cross-gradient returned on the image border by the even directions: 180 - 64. */
  const BorderWeight: int := 116

  predicate ValidDir(dir: int)
  {
    0 <= dir <= 7
  }

  /** Column offset of the neighbour in direction `dir` (the pixel an edge leads to). */
  function DX(dir: int): int
    requires ValidDir(dir)
  {
    if dir == 0 || dir == 1 || dir == 7 then 1
    else if dir == 3 || dir == 4 || dir == 5 then -1
    else 0
  }

  /** Row offset of the neighbour in direction `dir`; rows grow downwards, so "up" is -1. */
  function DY(dir: int): int
    requires ValidDir(dir)
  {
    if dir == 1 || dir == 2 || dir == 3 then -1
    else if dir == 5 || dir == 6 || dir == 7 then 1
    else 0
  }

  predicate InBounds(img: Raster, x: int, y: int)
  {
    0 <= x < img.width && 0 <= y < img.height
  }

  /**
   * The pixel (`x`, `y`) and its neighbour in direction `dir` are both in
   * the raster, as they are for every edge of the image graph.
   */
  predicate EdgeInBounds(img: Raster, x: int, y: int, dir: int)
  {
    ValidDir(dir) ==> InBounds(img, x, y) && InBounds(img, x + DX(dir), y + DY(dir))
  }

  function Abs(a: int): (r: nat)
    ensures r == a || r == -a
  {
    if a < 0 then -a else a
  }

  /**
   * The gradient across a horizontal or vertical edge: the difference
   * between the sums of the two samples on either side, a quarter of it.
   */
  function SideGrad(a: Sample, b: Sample, c: Sample, d: Sample): (r: int)
    ensures 0 <= r <= 127
  {
    Abs((a + b) - (c + d)) / 4
  }

  /** Reading an edge from its other end swaps the two sides, and the gradient is the same. */
  lemma SideGradSwap(a: Sample, b: Sample, c: Sample, d: Sample)
    ensures SideGrad(d, c, b, a) == SideGrad(a, b, c, d)
  {
    assert Abs((d + c) - (b + a)) == Abs((a + b) - (c + d));
  }

  /**
   * The magnitude of the slope of band `b` of `img` across the edge in
   * direction `dir` at pixel (`x`, `y`).  The even (horizontal and
   * vertical) directions use the two pairs of pixels on either side of the
   * edge and give `BorderWeight` on the image border, where one pair is
   * missing; the odd (diagonal) directions compare the two pixels on either side.
   */
  function Grad(img: Raster, x: int, y: int, b: int, dir: int): (r: int)
    requires ValidDir(dir) && EdgeInBounds(img, x, y, dir)
    ensures 0 <= r <= 255
    ensures dir % 2 == 0 ==> r <= 127
    ensures (dir == 0 || dir == 4) && (y == 0 || y == img.height - 1) ==> r == BorderWeight
    ensures (dir == 2 || dir == 6) && (x == 0 || x == img.width - 1) ==> r == BorderWeight
  {
    var s := img.sample;
    if dir == 0 then
      if y == 0 || y == img.height - 1 then BorderWeight
      else SideGrad(s(x, y + 1, b), s(x + 1, y + 1, b), s(x, y - 1, b), s(x + 1, y - 1, b))
    else if dir == 1 then
      Abs(s(x + 1, y, b) - s(x, y - 1, b))
    else if dir == 2 then
      if x == 0 || x == img.width - 1 then BorderWeight
      else SideGrad(s(x + 1, y - 1, b), s(x + 1, y, b), s(x - 1, y - 1, b), s(x - 1, y, b))
    else if dir == 3 then
      Abs(s(x, y - 1, b) - s(x - 1, y, b))
    else if dir == 4 then
      if y == 0 || y == img.height - 1 then BorderWeight
      else SideGrad(s(x, y - 1, b), s(x - 1, y - 1, b), s(x, y + 1, b), s(x - 1, y + 1, b))
    else if dir == 5 then
      Abs(s(x - 1, y, b) - s(x, y + 1, b))
    else if dir == 6 then
      if x == 0 || x == img.width - 1 then BorderWeight
      else SideGrad(s(x - 1, y + 1, b), s(x - 1, y, b), s(x + 1, y + 1, b), s(x + 1, y, b))
    else
      Abs(s(x, y + 1, b) - s(x + 1, y, b))
  }

  /**
   * `crossGrad`: the gradient `Grad` of band `b` at an edge in direction
   * `dir`, or `IllegalArgument` when `dir` is not 0 to 7.
   */
  function CrossGrad(img: Raster, x: int, y: int, b: int, dir: int): (r: Result<int>)
    requires EdgeInBounds(img, x, y, dir)
    ensures r.Err? <==> !ValidDir(dir)
    ensures r.Err? ==> r.error == IllegalArgument
    ensures r.Ok? ==> 0 <= r.value
    ensures r.Ok? && dir % 2 == 0 ==> r.value <= 127
    ensures r.Ok? && dir % 2 == 1 ==> r.value <= 255
    ensures (dir == 0 || dir == 4) && (y == 0 || y == img.height - 1) ==> r == Ok(BorderWeight)
    ensures (dir == 2 || dir == 6) && (x == 0 || x == img.width - 1) ==> r == Ok(BorderWeight)
  {
    if ValidDir(dir) then Ok(Grad(img, x, y, b, dir)) else Err(IllegalArgument)
  }

  /** The direction opposite `dir`, in which the reverse edge runs. */
  function Opposite(dir: int): (r: int)
    requires ValidDir(dir)
    ensures ValidDir(r) && r % 2 == dir % 2
    ensures DX(r) == -DX(dir) && DY(r) == -DY(dir)
  {
    if dir < 4 then dir + 4 else dir - 4
  }

  /**
   * The gradient does not depend on which end an edge is read from: the
   * reverse edge, from the neighbour back to the pixel, has the same one.
   */
  lemma GradSymmetric(img: Raster, x: int, y: int, b: int, dir: int)
    requires ValidDir(dir) && EdgeInBounds(img, x, y, dir)
    ensures EdgeInBounds(img, x + DX(dir), y + DY(dir), Opposite(dir))
    ensures Grad(img, x + DX(dir), y + DY(dir), b, Opposite(dir)) == Grad(img, x, y, b, dir)
  {
    var s := img.sample;
    if dir == 0 {
      if 0 < y < img.height - 1 {
        SideGradSwap(s(x, y + 1, b), s(x + 1, y + 1, b), s(x, y - 1, b), s(x + 1, y - 1, b));
      }
    } else if dir == 2 {
      if 0 < x < img.width - 1 {
        SideGradSwap(s(x + 1, y - 1, b), s(x + 1, y, b), s(x - 1, y - 1, b), s(x - 1, y, b));
      }
    } else if dir == 4 {
      if 0 < y < img.height - 1 {
        SideGradSwap(s(x, y - 1, b), s(x - 1, y - 1, b), s(x, y + 1, b), s(x - 1, y + 1, b));
      }
    } else if dir == 6 {
      if 0 < x < img.width - 1 {
        SideGradSwap(s(x - 1, y + 1, b), s(x - 1, y, b), s(x + 1, y + 1, b), s(x + 1, y, b));
      }
    }
  }

  /**
   * The two weighers `makeWeigher` can create.  `CrossGradMonoWeight` reads
   * the band-averaged (grayscale) copy of the image; `SimpleColorWeight`
   * reads the image itself.
   */
  datatype Weigher =
    | CrossGradMonoWeight(grayImage: Raster)
    | SimpleColorWeight(colorImage: Raster)

  /** The image a weigher reads. */
  function Image(w: Weigher): Raster
  {
    match w
    case CrossGradMonoWeight(img) => img
    case SimpleColorWeight(img) => img
  }

  /**
   * The largest cross-gradient an edge in direction `dir` can be credited
   * with in one band: 180 for horizontal and vertical edges, 255 for diagonal ones.
   */
  function EGradMax(dir: int): int
  {
    if dir % 2 == 0 then 180 else 255
  }

  /**
   * `CrossGradMonoWeight.weight`: the largest possible cross-gradient of an
   * edge in its direction less its actual one, in the grayscale image.
   */
  function MonoWeight(gray: Raster, edge: ImageEdge): (r: int)
    requires ValidDir(edge.dir) && EdgeInBounds(gray, edge.x, edge.y, edge.dir)
    ensures 0 <= r <= EGradMax(edge.dir)
    ensures edge.dir % 2 == 0 ==> r >= EGradMax(edge.dir) - 127
  {
    EGradMax(edge.dir) - Grad(gray, edge.x, edge.y, 0, edge.dir)
  }

  /**
   * `SimpleColorWeight.weight`: three times the largest possible
   * cross-gradient of an edge in its direction less the sum of its actual
   * ones in bands 0, 1 and 2 of the colour image.
   */
  function ColorWeight(color: Raster, edge: ImageEdge): (r: int)
    requires ValidDir(edge.dir) && EdgeInBounds(color, edge.x, edge.y, edge.dir)
    ensures 0 <= r <= 3 * EGradMax(edge.dir)
    ensures edge.dir % 2 == 0 ==> r >= 3 * (EGradMax(edge.dir) - 127)
  {
    var first := Grad(color, edge.x, edge.y, 0, edge.dir);
    var second := Grad(color, edge.x, edge.y, 1, edge.dir);
    3 * EGradMax(edge.dir) - (first + second + Grad(color, edge.x, edge.y, 2, edge.dir))
  }

  /**
   * The weight `w` gives `edge`, or the `IllegalArgument` that `crossGrad`
   * throws out of either `weight` when the edge's direction is not 0 to 7.
   * Every edge of the image graph is weighed, and no weight is negative, as
   * the shortest-paths search requires.
   */
  function Weight(w: Weigher, edge: ImageEdge): (r: Result<int>)
    requires EdgeInBounds(Image(w), edge.x, edge.y, edge.dir)
    ensures r.Err? <==> !ValidDir(edge.dir)
    ensures r.Err? ==> r.error == IllegalArgument
    ensures r.Ok? ==> 0 <= r.value
  {
    if !ValidDir(edge.dir) then Err(IllegalArgument)
    else
      match w
      case CrossGradMonoWeight(gray) => Ok(MonoWeight(gray, edge))
      case SimpleColorWeight(color) => Ok(ColorWeight(color, edge))
  }

  /** The reverse of `edge`: from its neighbour back to its pixel. */
  function Reverse(edge: ImageEdge): (r: ImageEdge)
    requires ValidDir(edge.dir)
    ensures ValidDir(r.dir) && r.x + DX(r.dir) == edge.x && r.y + DY(r.dir) == edge.y
  {
    ImageEdge(edge.x + DX(edge.dir), edge.y + DY(edge.dir), Opposite(edge.dir))
  }

  /** An edge and its reverse weigh the same in the grayscale weigher. */
  lemma MonoWeightSymmetric(gray: Raster, edge: ImageEdge)
    requires ValidDir(edge.dir) && EdgeInBounds(gray, edge.x, edge.y, edge.dir)
    ensures EdgeInBounds(gray, Reverse(edge).x, Reverse(edge).y, Reverse(edge).dir)
    ensures MonoWeight(gray, Reverse(edge)) == MonoWeight(gray, edge)
  {
    GradSymmetric(gray, edge.x, edge.y, 0, edge.dir);
    assert EGradMax(Reverse(edge).dir) == EGradMax(edge.dir);
  }

  /** An edge and its reverse weigh the same in the colour weigher. */
  lemma ColorWeightSymmetric(color: Raster, edge: ImageEdge)
    requires ValidDir(edge.dir) && EdgeInBounds(color, edge.x, edge.y, edge.dir)
    ensures EdgeInBounds(color, Reverse(edge).x, Reverse(edge).y, Reverse(edge).dir)
    ensures ColorWeight(color, Reverse(edge)) == ColorWeight(color, edge)
  {
    GradSymmetric(color, edge.x, edge.y, 0, edge.dir);
    GradSymmetric(color, edge.x, edge.y, 1, edge.dir);
    GradSymmetric(color, edge.x, edge.y, 2, edge.dir);
    assert EGradMax(Reverse(edge).dir) == EGradMax(edge.dir);
  }

  /**
   * The weigher named `weightName`, reading `image` or its grayscale copy
   * `grayImage`; `IllegalArgument` for any name other than "CrossGradMono"
   * and "SimpleColorWeight".
   */
  function MakeWeigher(weightName: string, image: Raster, grayImage: Raster): (r: Result<Weigher>)
    ensures r.Ok? <==> weightName == "CrossGradMono" || weightName == "SimpleColorWeight"
    ensures r.Err? ==> r.error == IllegalArgument
    ensures weightName == "CrossGradMono" ==> r == Ok(CrossGradMonoWeight(grayImage))
    ensures weightName == "SimpleColorWeight" ==> r == Ok(SimpleColorWeight(image))
  {
    if weightName == "CrossGradMono" then Ok(CrossGradMonoWeight(grayImage))
    else if weightName == "SimpleColorWeight" then Ok(SimpleColorWeight(image))
    else Err(IllegalArgument)
  }

  /** The weigher names listed by `weightNames`, as written. */
  function WeightNamesAsWritten(): (r: seq<string>)
    ensures |r| == 2 && r[0] == "CrossGradMono"
  {
    ["CrossGradMono", "HateCS"]
  }

  /** A listed name, "HateCS", that `makeWeigher` rejects. */
  lemma WeightNamesAsWrittenNotCreatable(image: Raster, grayImage: Raster)
    ensures exists name :: name in WeightNamesAsWritten() && MakeWeigher(name, image, grayImage).Err?
  {
    assert "HateCS" in WeightNamesAsWritten();
    assert MakeWeigher("HateCS", image, grayImage).Err?;
  }

  /** The weigher names `makeWeigher` can create. */
  function WeightNames(): (r: seq<string>)
    ensures |r| == 2
  {
    ["CrossGradMono", "SimpleColorWeight"]
  }

  /** Exactly the listed names are creatable. */
  lemma WeightNamesCreatable(weightName: string, image: Raster, grayImage: Raster)
    ensures weightName in WeightNames() <==> MakeWeigher(weightName, image, grayImage).Ok?
  {
  }
}
