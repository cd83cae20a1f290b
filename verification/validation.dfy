/**
  The host program's input checks, before any device work: the command-line
  arity, the image's channel count and byte size, the smoothing filter's tap
  count, and the predicate `main` hands to the capability check.
 */
module Validation {
  import opened Results
  import opened HostStrings
  import opened Registry

  /** `sizeof(cl_float)`, `sizeof(cl_int)` and `sizeof(cl_uchar)`. */
  const SIZEOF_CL_FLOAT: nat := 4
  const SIZEOF_CL_INT: nat := 4
  const SIZEOF_CL_UCHAR: nat := 1

  /** The only channel count the program accepts (RGB). */
  const SUPPORTED_CHANNELS: nat := 3

  /** The nine taps of the default filter, as text. */
  const DEFAULT_TAPS: seq<string> :=
    ["0.000134", "0.004432", "0.053991",
     "0.241971", "0.398943", "0.241971",
     "0.053991", "0.004432", "0.000134"]

  /**
    The filter used when no filter is given on the command line: the text
    `(0.000134,0.004432,...,0.000134)`, written here as its taps joined with
    commas inside parentheses.
   */
  const DEFAULT_KERNEL: string := "(" + Join(DEFAULT_TAPS, ',') + ")"

  // ---------------------------------------------------------------- command line

  datatype CommandLine = CommandLine(filename: string, kernelInput: string)

  /**
    The arity check in `main`, on the arguments after the program name: one
    argument is an image file with the default filter, two are an image file
    and a filter, anything else is refused.
   */
  function ParseArgs(args: seq<string>): (r: Result<CommandLine>)
    ensures r.Success? <==> |args| == 1 || |args| == 2
    ensures r.Failure? ==> r.error == InvalidInput
    ensures r.Success? ==> r.value.filename == args[0]
    ensures r.Success? && |args| == 1 ==> r.value.kernelInput == DEFAULT_KERNEL
    ensures r.Success? && |args| == 2 ==> r.value.kernelInput == args[1]
  {
    if |args| == 1 then Success(CommandLine(args[0], DEFAULT_KERNEL))
    else if |args| == 2 then Success(CommandLine(args[0], args[1]))
    else Failure(InvalidInput)
  }

  // ---------------------------------------------------------------- image

  /** What the image decoder hands back: dimensions, channel count and the pixel data. */
  datatype Decoded = Decoded(width: nat, height: nat, channels: nat, data: HostPtr)

  /** `struct Image`. */
  datatype Image = Image(width: nat, height: nat, channels: nat, size: nat, data: HostPtr)

  /**
    `loadImage` after decoding: a failed decode and any channel count other
    than 3 are refused; the byte size is one `cl_uchar` per channel per pixel.
   */
  function LoadImage(decoded: Option<Decoded>): (r: Result<Image>)
    ensures decoded.None? ==> r == Failure(ImageLoadFailed)
    ensures decoded.Some? && decoded.value.channels != SUPPORTED_CHANNELS ==>
      r == Failure(UnsupportedChannels(decoded.value.channels))
    ensures r.Success? <==> decoded.Some? && decoded.value.channels == SUPPORTED_CHANNELS
    ensures r.Success? ==>
      && r.value.channels == SUPPORTED_CHANNELS
      && r.value.width == decoded.value.width && r.value.height == decoded.value.height
      && r.value.data == decoded.value.data
      && r.value.size == r.value.height * (r.value.width * SUPPORTED_CHANNELS)
  {
    match decoded
    case None => Failure(ImageLoadFailed)
    case Some(d) =>
      if d.channels != SUPPORTED_CHANNELS then Failure(UnsupportedChannels(d.channels))
      else Success(Image(d.width, d.height, d.channels, d.width * d.height * d.channels * SIZEOF_CL_UCHAR, d.data))
  }

  // ---------------------------------------------------------------- smoothing filter

  function Square(d: nat): nat
  {
    d * d
  }

  ghost predicate IsPerfectSquare(n: nat)
  {
    exists d: nat :: Square(d) == n
  }

  lemma SquareGrows(a: nat, b: nat)
    requires a < b
    ensures Square(a) < Square(b)
  {
    assert a * a <= a * b;
    assert a * b < b * b;
  }

  /** The integer square root, which `std::floor(sqrt(length))` computes for the tap counts in question. */
  function ISqrt(n: nat): (r: nat)
    ensures Square(r) <= n < Square(r + 1)
  {
    if n == 0 then 0
    else
      var p := ISqrt(n - 1);
      if Square(p + 1) <= n then
        assert Square(p + 1) == n;
        SquareGrows(p + 1, p + 2);
        p + 1
      else p
  }

  /** A perfect square's integer square root is its root. */
  lemma SquareRootOfSquare(d: nat)
    ensures ISqrt(Square(d)) == d
  {
    var r := ISqrt(Square(d));
    if r < d {
      SquareGrows(r, d);
      if r + 1 < d {
        SquareGrows(r + 1, d);
      }
    } else if r > d {
      SquareGrows(d, r);
    }
  }

  /** A square has the parity of its root, so an odd square has an odd root. */
  lemma SquareParity(d: nat)
    ensures Square(d) % 2 == d % 2
  {
    var k, p := d / 2, d % 2;
    assert d == 2 * k + p;
    assert Square(d) == 2 * (2 * k * k + 2 * k * p) + p * p;
    assert p * p == p;
  }

  /** `struct SmoothKernel`; the taps stay uninterpreted text. */
  datatype SmoothKernel = SmoothKernel(dimension: nat, size: nat, taps: seq<string>)

  /** The tap fields of a filter string: parentheses dropped, split at commas. */
  function Taps(input: string): seq<string>
  {
    Split(RemoveChar(RemoveChar(input, '('), ')'), ',')
  }

  /**
    `loadSmoothKernel`: accepts exactly the filters whose tap count is
    non-zero, odd and a perfect square; the dimension is the square's root
    and the size is one `cl_float` per tap. The conversion of each tap with
    `std::stof`, which can abort the program, is not modelled.
   */
  function LoadSmoothKernel(input: string): (r: Result<SmoothKernel>)
    ensures var n := |Taps(input)|;
      r.Success? <==> n != 0 && n % 2 == 1 && IsPerfectSquare(n)
    ensures r.Failure? ==> r.error == UnsupportedKernelSize(|Taps(input)|)
    ensures r.Success? ==>
      && Square(r.value.dimension) == |Taps(input)|
      && r.value.dimension % 2 == 1
      && r.value.size == |Taps(input)| * SIZEOF_CL_FLOAT
      && r.value.taps == Taps(input)
  {
    var taps := Taps(input);
    var n := |taps|;
    var dimension := ISqrt(n);
    if Square(dimension) == n && n != 0 && n % 2 != 0 then
      SquareParity(dimension);
      Success(SmoothKernel(dimension, n * SIZEOF_CL_FLOAT, taps))
    else
      assert IsPerfectSquare(n) ==> Square(dimension) == n by {
        if IsPerfectSquare(n) {
          var d: nat :| Square(d) == n;
          SquareRootOfSquare(d);
        }
      }
      Failure(UnsupportedKernelSize(n))
  }

  // ---------------------------------------------------------------- capability predicate

  /** The global work size `main` dispatches: one work-item per pixel. */
  function GlobalWorkSize(width: nat, height: nat): seq<nat>
  {
    [width, height]
  }

  /**
    The predicate `main` passes to the capability check: a two-dimensional
    range is possible and each image dimension is within that dimension's
    per-group work-item limit. The group-size and local-memory limits are not
    consulted.
   */
  function BlurFits(width: nat, height: nat, caps: DeviceCaps): (fits: bool)
    ensures fits <==>
      var g := GlobalWorkSize(width, height);
      && |g| <= caps.maxWorkItemDimensions
      && forall i | 0 <= i < |g| :: g[i] <= caps.maxWorkItemSizes[i]
  {
    && caps.maxWorkItemDimensions >= 2
    && caps.maxWorkItemSizes[0] >= width
    && caps.maxWorkItemSizes[1] >= height
  }
}
