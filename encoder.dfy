/** `process_and_encode_image`, `encode_images_from_paths` and the re-encoding
    of a list of base64 images that the retry loops perform. The three provider
    scripts carry the same code. Pixels and base64 are opaque: an image is its
    pair of dimensions and its PIL mode, and an encoding is the pair of
    dimensions it was saved at together with its JPEG byte size, which a
    caller-supplied size function gives. */
module Encoder {
  import opened Wrappers

  /** MAX_SIZE: 20 MiB. An encoding is accepted when strictly smaller. */
  const MaxSize: nat := 20 * 1024 * 1024
  /** `for attempt in range(5)` */
  const MaxEncodeAttempts: nat := 5
  /** Only images whose width and height both exceed this are encoded. */
  const MinDimension: nat := 150

  /** A non-negative resize factor num/den (the scripts' floats 0.9 and 0.7). */
  datatype Fraction = Fraction(num: nat, den: nat)
  type Factor = f: Fraction | f.den > 0 witness Fraction(1, 1)

  /** The default `resize_factor=0.9`, also used for re-encoding after a short reply or an image_parse_error. */
  const DefaultFactor: Factor := Fraction(9, 10)
  /** The factor of the (unreachable) Gemini safety branch. */
  const SafetyFactor: Factor := Fraction(7, 10)

  /** PIL's image modes: bilevel, grey, grey with alpha, palette, palette
      with alpha, RGB, RGBA, CMYK, YCbCr, and 32-bit integer or float. */
  datatype Mode = Bilevel | L | LA | P | PA | RGB | RGBA | CMYK | YCbCr | I | F

  /** `if image.mode == 'RGBA': image = image.convert('RGB')` */
  function Converted(m: Mode): Mode
  {
    if m == RGBA then RGB else m
  }

  /** The modes PIL's JPEG writer stores; saving any other mode raises `OSError`. */
  predicate JpegStorable(m: Mode)
  {
    m.Bilevel? || m.L? || m.RGB? || m.CMYK? || m.YCbCr?
  }

  datatype Image = Image(width: nat, height: nat, mode: Mode)

  /** An encoded image: the dimensions it was saved at and its byte size. */
  datatype Encoded = Encoded(width: nat, height: nat, size: nat)

  /** The byte size of the JPEG that saving an image at the given dimensions produces. */
  type JpegSize = (nat, nat) -> nat

  /** `ValueError("Unable to reduce image size within 5 attempts")`, the
      `OSError` of saving a mode JPEG cannot store, or the `FileNotFoundError`
      of `Image.open`. */
  datatype EncodeError = TooLarge | CannotWrite(mode: Mode) | FileNotFound(path: string)

  function Pow(b: nat, k: nat): (r: nat)
    ensures b > 0 ==> r > 0
  {
    if k == 0 then 1 else b * Pow(b, k - 1)
  }

  /** `int(x * f ** k)` for a non-negative `x`: truncation is the floor. */
  function Scale(x: nat, f: Factor, k: nat): nat
  {
    x * Pow(f.num, k) / Pow(f.den, k)
  }

  lemma DivAtMost(x: nat, y: nat, m: nat)
    requires y > 0 && x < (m + 1) * y
    ensures x / y <= m
  {
    assert y * (x / y) <= x;
    assert y * (x / y) < y * (m + 1);
  }

  lemma MulStrict(a: nat, b: nat, c: nat)
    requires a < b && c > 0
    ensures a * c < b * c
  {
  }

  lemma MulMono(a: nat, b: nat, c: nat)
    requires a <= b
    ensures a * c <= b * c
  {
  }

  /** With a factor of at most one, every attempt is no larger than the one before. */
  lemma ScaleShrinks(x: nat, f: Factor, k: nat)
    requires f.num <= f.den
    ensures Scale(x, f, k + 1) <= Scale(x, f, k)
  {
    var n, d := f.num, f.den;
    var p, q := Pow(n, k), Pow(d, k);
    var a := x * p;
    var m := a / q;
    assert a < (m + 1) * q;
    assert Scale(x, f, k + 1) == (a * n) / (q * d) by {
      assert x * (n * p) == a * n;
      assert Pow(d, k + 1) == q * d;
    }
    if n > 0 {
      MulStrict(a, (m + 1) * q, n);
      MulMono(n, d, (m + 1) * q);
      assert a * n < (m + 1) * (q * d);
      DivAtMost(a * n, q * d, m);
    }
  }

  /** Encoding `img` at attempt `k`. */
  function AttemptAt(img: Image, f: Factor, jpeg: JpegSize, k: nat): Encoded
  {
    var w, h := Scale(img.width, f, k), Scale(img.height, f, k);
    Encoded(w, h, jpeg(w, h))
  }

  predicate Fits(e: Encoded)
  {
    e.size < MaxSize
  }

  /** The first attempt from `k` on, below five, whose encoding fits. */
  function FirstFit(img: Image, f: Factor, jpeg: JpegSize, k: nat): (r: Option<nat>)
    ensures r.Some? ==> k <= r.value < MaxEncodeAttempts && Fits(AttemptAt(img, f, jpeg, r.value))
    decreases MaxEncodeAttempts - k
  {
    if k >= MaxEncodeAttempts then None
    else if Fits(AttemptAt(img, f, jpeg, k)) then Some(k)
    else FirstFit(img, f, jpeg, k + 1)
  }

  /** What `process_and_encode_image(img, f)` returns or raises; the first
      `save` raises when the converted mode cannot be stored. */
  function Encode(img: Image, f: Factor, jpeg: JpegSize): Result<Encoded, EncodeError>
  {
    if !JpegStorable(Converted(img.mode)) then Err(CannotWrite(Converted(img.mode)))
    else match FirstFit(img, f, jpeg, 0)
    case Some(k) => Ok(AttemptAt(img, f, jpeg, k))
    case None => Err(TooLarge)
  }

  lemma {:induction false} FirstFitFrom(img: Image, f: Factor, jpeg: JpegSize, k: nat, j: nat)
    requires k <= j
    ensures FirstFit(img, f, jpeg, k) == Some(j) <==>
            j < MaxEncodeAttempts && Fits(AttemptAt(img, f, jpeg, j))
            && forall i :: k <= i < j ==> !Fits(AttemptAt(img, f, jpeg, i))
    decreases MaxEncodeAttempts - k
  {
    if k < MaxEncodeAttempts && k < j && !Fits(AttemptAt(img, f, jpeg, k)) {
      FirstFitFrom(img, f, jpeg, k + 1, j);
    }
  }

  lemma {:induction false} FirstFitNone(img: Image, f: Factor, jpeg: JpegSize, k: nat)
    ensures FirstFit(img, f, jpeg, k).None? <==>
            forall i :: k <= i < MaxEncodeAttempts ==> !Fits(AttemptAt(img, f, jpeg, i))
    decreases MaxEncodeAttempts - k
  {
    if k < MaxEncodeAttempts {
      FirstFitNone(img, f, jpeg, k + 1);
    }
  }

  /** The encoder returns exactly the first of the five attempts whose size
      is below the ceiling; attempt k is the original size scaled by f^k. */
  lemma EncodeIsFirstFit(img: Image, f: Factor, jpeg: JpegSize, e: Encoded)
    ensures Encode(img, f, jpeg) == Ok(e) <==>
            JpegStorable(Converted(img.mode)) &&
            exists k :: 0 <= k < MaxEncodeAttempts && e == AttemptAt(img, f, jpeg, k) && Fits(e)
                        && forall i :: 0 <= i < k ==> !Fits(AttemptAt(img, f, jpeg, i))
  {
    if Encode(img, f, jpeg) == Ok(e) {
      var k := FirstFit(img, f, jpeg, 0).value;
      FirstFitFrom(img, f, jpeg, 0, k);
    }
    if exists k :: 0 <= k < MaxEncodeAttempts && e == AttemptAt(img, f, jpeg, k) && Fits(e)
                   && forall i :: 0 <= i < k ==> !Fits(AttemptAt(img, f, jpeg, i)) {
      var k :| 0 <= k < MaxEncodeAttempts && e == AttemptAt(img, f, jpeg, k) && Fits(e)
               && forall i :: 0 <= i < k ==> !Fits(AttemptAt(img, f, jpeg, i));
      FirstFitFrom(img, f, jpeg, 0, k);
    }
  }

  /** An encoding at or above the ceiling is never returned, and the encoder
      raises exactly when all five attempts are too large. */
  lemma EncodeBound(img: Image, f: Factor, jpeg: JpegSize)
    ensures Encode(img, f, jpeg).Ok? ==> Fits(Encode(img, f, jpeg).value)
    ensures Encode(img, f, jpeg) == Err(TooLarge) <==>
            JpegStorable(Converted(img.mode))
            && forall i :: 0 <= i < MaxEncodeAttempts ==> !Fits(AttemptAt(img, f, jpeg, i))
    ensures Encode(img, f, jpeg).Err? && Encode(img, f, jpeg) != Err(TooLarge) <==>
            !JpegStorable(Converted(img.mode))
    ensures Encode(img, f, jpeg).Err? && Encode(img, f, jpeg) != Err(TooLarge) ==>
            Encode(img, f, jpeg) == Err(CannotWrite(img.mode))
  {
    FirstFitNone(img, f, jpeg, 0);
  }

  /** Attempt 0 saves the image at its original dimensions. */
  lemma FirstAttemptIsOriginal(img: Image, f: Factor, jpeg: JpegSize)
    ensures AttemptAt(img, f, jpeg, 0) == Encoded(img.width, img.height, jpeg(img.width, img.height))
  {
  }

  /** `process_and_encode_image(image, resize_factor)` */
  method ProcessAndEncodeImage(img: Image, f: Factor, jpeg: JpegSize) returns (r: Result<Encoded, EncodeError>)
    ensures r == Encode(img, f, jpeg)
  {
    var mode := img.mode;
    if mode == RGBA {
      mode := RGB;
    }
    for attempt := 0 to MaxEncodeAttempts
      invariant mode == Converted(img.mode)
      invariant 0 < attempt ==> JpegStorable(mode)
      invariant FirstFit(img, f, jpeg, 0) == FirstFit(img, f, jpeg, attempt)
    {
      var w := img.width * Pow(f.num, attempt) / Pow(f.den, attempt);
      var h := img.height * Pow(f.num, attempt) / Pow(f.den, attempt);
      if !JpegStorable(mode) {
        return Err(CannotWrite(mode));
      }
      var size := jpeg(w, h);
      if size < MaxSize {
        return Ok(Encoded(w, h, size));
      }
    }
    return Err(TooLarge);
  }

  /** The image that `Image.open(io.BytesIO(base64.b64decode(e)))` gives
      back. A JPEG decodes to L, RGB or CMYK, modes the writer stores
      again; the model takes RGB. */
  function Decoded(e: Encoded): Image
  {
    Image(e.width, e.height, RGB)
  }

  /** An encoding the encoder could have produced with this size function. */
  predicate Produced(e: Encoded, jpeg: JpegSize)
  {
    e.size == jpeg(e.width, e.height) && Fits(e)
  }

  lemma EncodeProduces(img: Image, f: Factor, jpeg: JpegSize)
    ensures Encode(img, f, jpeg).Ok? ==> Produced(Encode(img, f, jpeg).value, jpeg)
  {
  }

  /** Re-encoding restarts at attempt 0, so an encoder output comes back
      unchanged, whatever the factor. */
  lemma ReencodeProducedIsIdentity(e: Encoded, f: Factor, jpeg: JpegSize)
    requires Produced(e, jpeg)
    ensures Encode(Decoded(e), f, jpeg) == Ok(e)
  {
    assert AttemptAt(Decoded(e), f, jpeg, 0) == e;
  }

  /** `prefix` put in front of a successful list; an error stays as it is. */
  function Prepend(prefix: seq<Encoded>, r: Result<seq<Encoded>, EncodeError>): Result<seq<Encoded>, EncodeError>
  {
    if r.Ok? then Ok(prefix + r.value) else r
  }

  lemma PrependEmpty(r: Result<seq<Encoded>, EncodeError>)
    ensures Prepend([], r) == r
  {
    if r.Ok? {
      assert [] + r.value == r.value;
    }
  }

  lemma PrependTwice(a: seq<Encoded>, b: seq<Encoded>, r: Result<seq<Encoded>, EncodeError>)
    ensures Prepend(a, Prepend(b, r)) == Prepend(a + b, r)
  {
    if r.Ok? {
      assert a + (b + r.value) == (a + b) + r.value;
    }
  }

  /** The loop `for encoded_image in encoded_images: ... process_and_encode_image(image, f)`:
      every image re-encoded, in order, or the first error. */
  function ReencodeAll(images: seq<Encoded>, f: Factor, jpeg: JpegSize): Result<seq<Encoded>, EncodeError>
    decreases |images|
  {
    if images == [] then Ok([])
    else match Encode(Decoded(images[0]), f, jpeg)
      case Err(e) => Err(e)
      case Ok(e0) => Prepend([e0], ReencodeAll(images[1..], f, jpeg))
  }

  /** A successful re-encoding keeps the list length and re-encodes each image in place. */
  lemma {:induction false} ReencodeAllPointwise(images: seq<Encoded>, f: Factor, jpeg: JpegSize)
    ensures var r := ReencodeAll(images, f, jpeg);
            r.Ok? ==> |r.value| == |images|
                      && forall i :: 0 <= i < |images| ==> Encode(Decoded(images[i]), f, jpeg) == Ok(r.value[i])
    ensures ReencodeAll(images, f, jpeg).Err? <==>
            exists i :: 0 <= i < |images| && Encode(Decoded(images[i]), f, jpeg).Err?
    decreases |images|
  {
    if images != [] {
      ReencodeAllPointwise(images[1..], f, jpeg);
      var r := ReencodeAll(images, f, jpeg);
      if r.Ok? {
        forall i | 1 <= i < |images|
          ensures Encode(Decoded(images[i]), f, jpeg) == Ok(r.value[i])
        {
          assert images[i] == images[1..][i - 1];
        }
      }
      if exists i :: 0 <= i < |images| && Encode(Decoded(images[i]), f, jpeg).Err? {
        var i :| 0 <= i < |images| && Encode(Decoded(images[i]), f, jpeg).Err?;
        if i > 0 {
          assert images[i] == images[1..][i - 1];
        }
      }
      if r.Err? && Encode(Decoded(images[0]), f, jpeg).Ok? {
        var j :| 0 <= j < |images[1..]| && Encode(Decoded(images[1..][j]), f, jpeg).Err?;
        assert images[1..][j] == images[j + 1];
      }
    }
  }

  predicate AllProduced(images: seq<Encoded>, jpeg: JpegSize)
  {
    forall i :: 0 <= i < |images| ==> Produced(images[i], jpeg)
  }

  /** Re-encoding a list of encoder outputs changes nothing. */
  lemma {:induction false} ReencodeAllProduced(images: seq<Encoded>, f: Factor, jpeg: JpegSize)
    requires AllProduced(images, jpeg)
    ensures ReencodeAll(images, f, jpeg) == Ok(images)
    decreases |images|
  {
    if images != [] {
      ReencodeProducedIsIdentity(images[0], f, jpeg);
      ReencodeAllProduced(images[1..], f, jpeg);
      assert images == [images[0]] + images[1..];
    }
  }

  lemma {:induction false} ReencodeAllProduces(images: seq<Encoded>, f: Factor, jpeg: JpegSize)
    ensures ReencodeAll(images, f, jpeg).Ok? ==> AllProduced(ReencodeAll(images, f, jpeg).value, jpeg)
  {
    var r := ReencodeAll(images, f, jpeg);
    ReencodeAllPointwise(images, f, jpeg);
    if r.Ok? {
      forall i | 0 <= i < |images|
        ensures Produced(r.value[i], jpeg)
      {
        EncodeProduces(Decoded(images[i]), f, jpeg);
      }
    }
  }

  lemma ReencodeAllStep(images: seq<Encoded>, i: nat, f: Factor, jpeg: JpegSize)
    requires i < |images|
    ensures ReencodeAll(images[i..], f, jpeg) ==
            match Encode(Decoded(images[i]), f, jpeg)
            case Err(e) => Err(e)
            case Ok(e0) => Prepend([e0], ReencodeAll(images[i + 1..], f, jpeg))
  {
    assert images[i..][0] == images[i];
    assert images[i..][1..] == images[i + 1..];
  }

  method ReencodeImages(images: seq<Encoded>, f: Factor, jpeg: JpegSize) returns (r: Result<seq<Encoded>, EncodeError>)
    ensures r == ReencodeAll(images, f, jpeg)
  {
    var resized: seq<Encoded> := [];
    assert images[0..] == images;
    PrependEmpty(ReencodeAll(images, f, jpeg));
    for i := 0 to |images|
      invariant ReencodeAll(images, f, jpeg) == Prepend(resized, ReencodeAll(images[i..], f, jpeg))
    {
      ReencodeAllStep(images, i, f, jpeg);
      var e := ProcessAndEncodeImage(Decoded(images[i]), f, jpeg);
      if e.Err? {
        return Err(e.error);
      }
      PrependTwice(resized, [e.value], ReencodeAll(images[i + 1..], f, jpeg));
      resized := resized + [e.value];
    }
    assert images[|images|..] == [];
    assert resized + [] == resized;
    return Ok(resized);
  }

  predicate Eligible(img: Image)
  {
    img.width > MinDimension && img.height > MinDimension
  }

  /** What `encode_images_from_paths(paths)` returns or raises; `store` is the
      image files on disk. */
  function EncodeFromPaths(paths: seq<string>, store: map<string, Image>, jpeg: JpegSize): Result<seq<Encoded>, EncodeError>
    decreases |paths|
  {
    if paths == [] then Ok([])
    else if paths[0] !in store then Err(FileNotFound(paths[0]))
    else if !Eligible(store[paths[0]]) then EncodeFromPaths(paths[1..], store, jpeg)
    else match Encode(store[paths[0]], DefaultFactor, jpeg)
      case Err(err) => Err(err)
      case Ok(e) => Prepend([e], EncodeFromPaths(paths[1..], store, jpeg))
  }

  /** One path to a large-enough image gives that image's encoding, or its error. */
  lemma EncodeFromOnePath(path: string, store: map<string, Image>, jpeg: JpegSize)
    requires path in store && Eligible(store[path])
    ensures EncodeFromPaths([path], store, jpeg) == match Encode(store[path], DefaultFactor, jpeg)
                                                   case Ok(e) => Ok([e])
                                                   case Err(err) => Err(err)
  {
    assert [path][1..] == [];
    if Encode(store[path], DefaultFactor, jpeg).Ok? {
      assert [Encode(store[path], DefaultFactor, jpeg).value] + [] == [Encode(store[path], DefaultFactor, jpeg).value];
    }
  }

  /** The images of `paths` that are large enough, in input order. */
  function EligibleImages(paths: seq<string>, store: map<string, Image>): (r: seq<Image>)
    requires forall i :: 0 <= i < |paths| ==> paths[i] in store
    ensures |r| <= |paths|
    ensures forall j :: 0 <= j < |r| ==> Eligible(r[j])
    decreases |paths|
  {
    if paths == [] then []
    else
      var rest := EligibleImages(paths[1..], store);
      if Eligible(store[paths[0]]) then [store[paths[0]]] + rest else rest
  }

  /** On success the output is exactly the large-enough images, each encoded
      at factor 0.9, in input order, so it is never longer than the input. */
  lemma {:induction false} EncodeFromPathsOk(paths: seq<string>, store: map<string, Image>, jpeg: JpegSize)
    requires EncodeFromPaths(paths, store, jpeg).Ok?
    ensures forall i :: 0 <= i < |paths| ==> paths[i] in store
    ensures var out, imgs := EncodeFromPaths(paths, store, jpeg).value, EligibleImages(paths, store);
            |out| == |imgs| <= |paths|
            && forall j :: 0 <= j < |out| ==> Encode(imgs[j], DefaultFactor, jpeg) == Ok(out[j])
    decreases |paths|
  {
    if paths != [] {
      EncodeFromPathsOk(paths[1..], store, jpeg);
      forall i | 0 <= i < |paths| ensures paths[i] in store {
        if i > 0 { assert paths[i] == paths[1..][i - 1]; }
      }
    }
  }

  /** An error names a path of the input that is not on disk, or is the size error. */
  lemma {:induction false} EncodeFromPathsErr(paths: seq<string>, store: map<string, Image>, jpeg: JpegSize)
    requires EncodeFromPaths(paths, store, jpeg).Err?
    ensures match EncodeFromPaths(paths, store, jpeg).error
            case FileNotFound(p) => p in paths && p !in store
            case CannotWrite(m) => exists i :: 0 <= i < |paths| && paths[i] in store && Eligible(store[paths[i]])
                                              && Converted(store[paths[i]].mode) == m && !JpegStorable(m)
            case TooLarge => exists i :: 0 <= i < |paths| && paths[i] in store && Eligible(store[paths[i]])
                                         && Encode(store[paths[i]], DefaultFactor, jpeg).Err?
    decreases |paths|
  {
    var r := EncodeFromPaths(paths, store, jpeg);
    if paths[0] in store && !(Eligible(store[paths[0]]) && Encode(store[paths[0]], DefaultFactor, jpeg).Err?) {
      EncodeFromPathsErr(paths[1..], store, jpeg);
      match r.error
      case FileNotFound(p) => assert p in paths[1..];
      case CannotWrite(m) =>
        var i :| 0 <= i < |paths[1..]| && paths[1..][i] in store && Eligible(store[paths[1..][i]])
                 && Converted(store[paths[1..][i]].mode) == m && !JpegStorable(m);
        assert paths[i + 1] == paths[1..][i];
      case TooLarge =>
        var i :| 0 <= i < |paths[1..]| && paths[1..][i] in store && Eligible(store[paths[1..][i]])
                 && Encode(store[paths[1..][i]], DefaultFactor, jpeg).Err?;
        assert paths[i + 1] == paths[1..][i];
    }
  }

  /** A path `encode_images_from_paths` gets past: its file exists, and it
      is either too small to be encoded or encodes. */
  predicate PathPasses(path: string, store: map<string, Image>, jpeg: JpegSize)
  {
    path in store && (!Eligible(store[path]) || Encode(store[path], DefaultFactor, jpeg).Ok?)
  }

  /** The error raised is the one of the first path that does not pass: its
      `FileNotFoundError` when it is missing, otherwise its encoder error. */
  lemma {:induction false} EncodeFromPathsFirstError(paths: seq<string>, store: map<string, Image>, jpeg: JpegSize)
    requires EncodeFromPaths(paths, store, jpeg).Err?
    ensures exists k :: 0 <= k < |paths| && !PathPasses(paths[k], store, jpeg)
                        && (forall i :: 0 <= i < k ==> PathPasses(paths[i], store, jpeg))
                        && EncodeFromPaths(paths, store, jpeg).error
                           == if paths[k] !in store then FileNotFound(paths[k])
                              else Encode(store[paths[k]], DefaultFactor, jpeg).error
    decreases |paths|
  {
    if PathPasses(paths[0], store, jpeg) {
      EncodeFromPathsFirstError(paths[1..], store, jpeg);
      var j :| 0 <= j < |paths[1..]| && !PathPasses(paths[1..][j], store, jpeg)
               && (forall i :: 0 <= i < j ==> PathPasses(paths[1..][i], store, jpeg))
               && EncodeFromPaths(paths[1..], store, jpeg).error
                  == if paths[1..][j] !in store then FileNotFound(paths[1..][j])
                     else Encode(store[paths[1..][j]], DefaultFactor, jpeg).error;
      assert paths[1..][j] == paths[j + 1];
      assert forall i :: 1 <= i < j + 1 ==> paths[i] == paths[1..][i - 1];
      assert !PathPasses(paths[j + 1], store, jpeg);
    } else {
      assert !PathPasses(paths[0], store, jpeg);
    }
  }

  /** What `encode_images_from_paths` returns is encoder output, so re-encoding it is the identity. */
  lemma EncodeFromPathsProduces(paths: seq<string>, store: map<string, Image>, jpeg: JpegSize)
    requires EncodeFromPaths(paths, store, jpeg).Ok?
    ensures AllProduced(EncodeFromPaths(paths, store, jpeg).value, jpeg)
  {
    EncodeFromPathsOk(paths, store, jpeg);
    var out, imgs := EncodeFromPaths(paths, store, jpeg).value, EligibleImages(paths, store);
    forall j | 0 <= j < |out|
      ensures Produced(out[j], jpeg)
    {
      EncodeProduces(imgs[j], DefaultFactor, jpeg);
    }
  }

  /** `encode_images_from_paths(image_paths)` */
  method EncodeImagesFromPaths(paths: seq<string>, store: map<string, Image>, jpeg: JpegSize)
    returns (r: Result<seq<Encoded>, EncodeError>)
    ensures r == EncodeFromPaths(paths, store, jpeg)
  {
    var images: seq<Encoded> := [];
    assert paths[0..] == paths;
    PrependEmpty(EncodeFromPaths(paths, store, jpeg));
    for i := 0 to |paths|
      invariant EncodeFromPaths(paths, store, jpeg) == Prepend(images, EncodeFromPaths(paths[i..], store, jpeg))
    {
      assert paths[i..][1..] == paths[i + 1..];
      if paths[i] !in store {
        return Err(FileNotFound(paths[i]));
      }
      var img := store[paths[i]];
      if img.width > MinDimension && img.height > MinDimension {
        var e := ProcessAndEncodeImage(img, DefaultFactor, jpeg);
        if e.Err? {
          return Err(e.error);
        }
        PrependTwice(images, [e.value], EncodeFromPaths(paths[i + 1..], store, jpeg));
        images := images + [e.value];
      }
    }
    assert paths[|paths|..] == [];
    assert images + [] == images;
    return Ok(images);
  }
}
