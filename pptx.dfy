/** The slide-deck preprocessor: it saves the large pictures of each slide
    as numbered image files and pairs every saved image with every text of
    its slide in one table. Slides are given as their shapes in order. */
module Slides {
  import opened Wrappers
  import opened Text
  import opened Naming
  import GeminiRunner

  /** A picture (shape type 13) with its pixel size and image bytes, another
      shape with a text frame, or a shape with neither. */
  datatype Shape = Picture(width: nat, height: nat, blob: seq<bv8>) | TextBox(text: string) | Plain

  type Slide = seq<Shape>

  /** A row of the table: the saved image's path without `.png`, and a text. */
  datatype Row = Row(imagePath: string, text: string)

  const OutputFolder: string := "pptimages"
  const TitleText: string := "Image Challenge"
  const QuestionText: string := "Q:"
  const MinWidth: nat := 300
  const MinHeight: nat := 60
  const TableFile: string := "NEJMImageChallenge.xlsx"

  predicate Skipped(t: string)
  {
    t == TitleText || t == QuestionText
  }

  /** The texts `extract_text_from_slide` keeps, in shape order. */
  function SlideTexts(shapes: seq<Shape>): seq<string>
    decreases |shapes|
  {
    if shapes == [] then []
    else
      var front := SlideTexts(shapes[..|shapes| - 1]);
      var last := shapes[|shapes| - 1];
      if last.TextBox? && !Skipped(Strip(last.text)) then front + [Strip(last.text)] else front
  }

  /** Every kept text is the stripped text of some text frame of the
      slide and is not one of the two skipped labels. */
  lemma {:induction false} SlideTextsSound(shapes: seq<Shape>, t: string)
    requires t in SlideTexts(shapes)
    ensures !Skipped(t) && exists k :: 0 <= k < |shapes| && shapes[k].TextBox? && Strip(shapes[k].text) == t
    decreases |shapes|
  {
    var n := |shapes|;
    var front := shapes[..n - 1];
    if t in SlideTexts(front) {
      SlideTextsSound(front, t);
      var k :| 0 <= k < |front| && front[k].TextBox? && Strip(front[k].text) == t;
      assert shapes[k] == front[k];
    } else {
      assert shapes[n - 1].TextBox? && Strip(shapes[n - 1].text) == t;
    }
  }

  /** The stripped text of every text frame is kept unless it is one of the
      two skipped labels. */
  lemma {:induction false} SlideTextsComplete(shapes: seq<Shape>, k: nat)
    requires k < |shapes| && shapes[k].TextBox? && !Skipped(Strip(shapes[k].text))
    ensures Strip(shapes[k].text) in SlideTexts(shapes)
    decreases |shapes|
  {
    var n := |shapes|;
    if k < n - 1 {
      var front := shapes[..n - 1];
      assert front[k] == shapes[k];
      SlideTextsComplete(front, k);
    }
  }

  /** `extract_text_from_slide(slide)` */
  method ExtractTextFromSlide(slide: Slide) returns (texts: seq<string>)
    ensures texts == SlideTexts(slide)
  {
    texts := [];
    for j := 0 to |slide|
      invariant texts == SlideTexts(slide[..j])
    {
      assert slide[..j + 1][..j] == slide[..j];
      var shape := slide[j];
      if !shape.TextBox? {
        continue;
      }
      var content := Strip(shape.text);
      if content == TitleText || content == QuestionText {
        continue;
      }
      texts := texts + [content];
    }
    assert slide[..|slide|] == slide;
  }

  /** A picture `extract_images_from_pptx` saves. */
  predicate Saved(s: Shape)
  {
    s.Picture? && s.width > MinWidth && s.height > MinHeight
  }

  /** The saved pictures of a slide, in shape order. */
  function SavedPictures(shapes: seq<Shape>): (r: seq<Shape>)
    ensures |r| <= |shapes|
    ensures forall i :: 0 <= i < |r| ==> Saved(r[i])
    decreases |shapes|
  {
    if shapes == [] then []
    else
      var front := SavedPictures(shapes[..|shapes| - 1]);
      if Saved(shapes[|shapes| - 1]) then front + [shapes[|shapes| - 1]] else front
  }

  /** Every saved picture is a large picture of the slide and every large
      picture of the slide is saved. */
  lemma {:induction false} SavedPicturesSpec(shapes: seq<Shape>, p: Shape)
    ensures p in SavedPictures(shapes) <==> p in shapes && Saved(p)
    decreases |shapes|
  {
    if shapes != [] {
      var front := shapes[..|shapes| - 1];
      SavedPicturesSpec(front, p);
      assert shapes == front + [shapes[|shapes| - 1]];
    }
  }

  /** `f'{output_folder}/img_page{slide_number}_{img_index}'` */
  function ImageName(slideNumber: int, index: int): string
  {
    OutputFolder + "/img_page" + IntToString(slideNumber) + "_" + IntToString(index)
  }

  /** The file a saved picture is written to. */
  function ImageFile(slideNumber: int, index: int): string
  {
    ImageName(slideNumber, index) + ".png"
  }

  /** No two pictures share a name. */
  lemma ImageNameInjective(s1: int, i1: int, s2: int, i2: int)
    requires ImageName(s1, i1) == ImageName(s2, i2)
    ensures s1 == s2 && i1 == i2
  {
    var prefix := OutputFolder + "/img_page";
    var a, b := IntToString(s1), IntToString(s2);
    var c, d := IntToString(i1), IntToString(i2);
    assert ImageName(s1, i1) == prefix + (a + ['_'] + c);
    assert ImageName(s2, i2) == prefix + (b + ['_'] + d);
    assert a + ['_'] + c == ImageName(s1, i1)[|prefix|..];
    assert b + ['_'] + d == ImageName(s2, i2)[|prefix|..];
    SplitAtSeparator(a, c, b, d, '_');
    IntToStringInjective(s1, s2);
    IntToStringInjective(i1, i2);
  }

  lemma ImageFileInjective(s1: int, i1: int, s2: int, i2: int)
    requires ImageFile(s1, i1) == ImageFile(s2, i2)
    ensures s1 == s2 && i1 == i2
  {
    assert ImageName(s1, i1) == ImageFile(s1, i1)[..|ImageFile(s1, i1)| - 4];
    assert ImageName(s2, i2) == ImageFile(s2, i2)[..|ImageFile(s2, i2)| - 4];
    ImageNameInjective(s1, i1, s2, i2);
  }

  /** The first saved picture of slide `n` is the image file the provider
      scripts load for case `n`. */
  lemma FirstImageIsCaseImage(n: int)
    ensures ImageFile(n, 0) == GeminiRunner.ImagePath(n)
  {
    var t := IntToString(n);
    var file := "img_page" + t + "_0.png";
    assert file[0] == 'i';
    assert GeminiRunner.ImagePath(n) == OutputFolder + "/" + file;
    assert IntToString(0) == "0";
    assert ImageFile(n, 0) == OutputFolder + "/img_page" + t + "_" + "0" + ".png";
  }

  /** One row per text for the picture with index `index`. */
  function ImageRows(slideNumber: int, index: int, texts: seq<string>): seq<Row>
  {
    seq(|texts|, k requires 0 <= k < |texts| => Row(ImageName(slideNumber, index), texts[k]))
  }

  /** The rows of one slide whose first `n` pictures are saved. */
  function SlideRows(slideNumber: int, n: nat, texts: seq<string>): seq<Row>
    decreases n
  {
    if n == 0 then [] else SlideRows(slideNumber, n - 1, texts) + ImageRows(slideNumber, n - 1, texts)
  }

  /** Row `a * m + b` lies before row `n * m` when `a < n` and `b < m`. */
  lemma RowIndexBound(a: nat, b: nat, n: nat, m: nat)
    requires a < n && b < m
    ensures a * m + b < n * m
  {
    assert n * m == (a + 1) * m + (n - a - 1) * m;
  }

  lemma {:induction false} SlideRowsLength(slideNumber: int, n: nat, texts: seq<string>)
    ensures |SlideRows(slideNumber, n, texts)| == n * |texts|
    decreases n
  {
    if n > 0 {
      SlideRowsLength(slideNumber, n - 1, texts);
      assert n * |texts| == (n - 1) * |texts| + |texts|;
    }
  }

  /** Row `a * |texts| + b` of a slide pairs picture `a` with text `b`. */
  lemma {:induction false} SlideRowAt(slideNumber: int, n: nat, texts: seq<string>, a: nat, b: nat)
    requires a < n && b < |texts|
    ensures a * |texts| + b < |SlideRows(slideNumber, n, texts)|
    ensures SlideRows(slideNumber, n, texts)[a * |texts| + b] == Row(ImageName(slideNumber, a), texts[b])
    decreases n
  {
    var m := |texts|;
    var front := SlideRows(slideNumber, n - 1, texts);
    var rest := ImageRows(slideNumber, n - 1, texts);
    var r := SlideRows(slideNumber, n, texts);
    var i := a * m + b;
    SlideRowsLength(slideNumber, n - 1, texts);
    SlideRowsLength(slideNumber, n, texts);
    RowIndexBound(a, b, n, m);
    assert r == front + rest;
    if a < n - 1 {
      RowIndexBound(a, b, n - 1, m);
      SlideRowAt(slideNumber, n - 1, texts, a, b);
      assert r[i] == front[i];
    } else {
      assert i == |front| + b;
      assert r[i] == rest[b];
    }
  }

  /** The rows of the whole deck, slides numbered from 1. */
  function DeckRows(slides: seq<Slide>): seq<Row>
    decreases |slides|
  {
    if slides == [] then []
    else
      var n := |slides|;
      DeckRows(slides[..n - 1])
      + SlideRows(n, |SavedPictures(slides[n - 1])|, SlideTexts(slides[n - 1]))
  }

  /** The image files after the pictures with indices below `n` of slide
      `slideNumber` are written. */
  function WriteSlide(files: map<string, seq<bv8>>, slideNumber: int, pictures: seq<Shape>, n: nat): map<string, seq<bv8>>
    requires n <= |pictures| && forall i :: 0 <= i < |pictures| ==> pictures[i].Picture?
    decreases n
  {
    if n == 0 then files
    else WriteSlide(files, slideNumber, pictures, n - 1)[ImageFile(slideNumber, n - 1) := pictures[n - 1].blob]
  }

  /** The image files after every slide is processed. */
  function WriteDeck(files: map<string, seq<bv8>>, slides: seq<Slide>): map<string, seq<bv8>>
    decreases |slides|
  {
    if slides == [] then files
    else
      var n := |slides|;
      var pictures := SavedPictures(slides[n - 1]);
      WriteSlide(WriteDeck(files, slides[..n - 1]), n, pictures, |pictures|)
  }

  /** Slide `s` differs from slide `n`, so no picture of slide `n` is
      written over a picture of slide `s`. */
  lemma OtherSlideUntouched(s: int, i: int, n: int, count: nat)
    requires s != n
    ensures !(exists j :: 0 <= j < count && ImageFile(s, i) == ImageFile(n, j))
  {
    forall j | 0 <= j < count
      ensures ImageFile(s, i) != ImageFile(n, j)
    {
      if ImageFile(s, i) == ImageFile(n, j) {
        ImageFileInjective(s, i, n, j);
      }
    }
  }

  /** Each saved picture of each slide ends up in its own file. */
  lemma {:induction false} WriteDeckWritten(files: map<string, seq<bv8>>, slides: seq<Slide>, s: nat, i: nat)
    requires 1 <= s <= |slides| && i < |SavedPictures(slides[s - 1])|
    ensures ImageFile(s, i) in WriteDeck(files, slides)
    ensures WriteDeck(files, slides)[ImageFile(s, i)] == SavedPictures(slides[s - 1])[i].blob
    decreases |slides|
  {
    var n := |slides|;
    var front := slides[..n - 1];
    var pictures := SavedPictures(slides[n - 1]);
    var before := WriteDeck(files, front);
    WriteSlideSpec(before, n, pictures, |pictures|);
    if s < n {
      assert front[s - 1] == slides[s - 1];
      WriteDeckWritten(files, front, s, i);
      OtherSlideUntouched(s, i, n, |pictures|);
    }
  }

  /** A file that is no picture of the deck keeps its contents. */
  lemma {:induction false} WriteDeckKeeps(files: map<string, seq<bv8>>, slides: seq<Slide>, path: string)
    requires path in files && !IsDeckImage(path, slides)
    ensures path in WriteDeck(files, slides) && WriteDeck(files, slides)[path] == files[path]
    decreases |slides|
  {
    if slides != [] {
      var n := |slides|;
      var front := slides[..n - 1];
      var pictures := SavedPictures(slides[n - 1]);
      assert forall k :: 0 <= k < |front| ==> front[k] == slides[k];
      WriteDeckKeeps(files, front, path);
      WriteSlideSpec(WriteDeck(files, front), n, pictures, |pictures|);
    }
  }

  /** The deck writes no file other than its pictures. */
  lemma {:induction false} WriteDeckOnly(files: map<string, seq<bv8>>, slides: seq<Slide>, path: string)
    requires path in WriteDeck(files, slides)
    ensures path in files || IsDeckImage(path, slides)
    decreases |slides|
  {
    if slides != [] {
      var n := |slides|;
      var front := slides[..n - 1];
      var pictures := SavedPictures(slides[n - 1]);
      WriteSlideSpec(WriteDeck(files, front), n, pictures, |pictures|);
      if exists j :: 0 <= j < |pictures| && path == ImageFile(n, j) {
        var j :| 0 <= j < |pictures| && path == ImageFile(n, j);
        assert 1 <= n <= |slides| && 0 <= j < |SavedPictures(slides[n - 1])|;
      } else {
        WriteDeckOnly(files, front, path);
        if path !in files {
          var s, i :| 1 <= s <= |front| && 0 <= i < |SavedPictures(front[s - 1])| && path == ImageFile(s, i);
          assert front[s - 1] == slides[s - 1];
        }
      }
    }
  }

  /** `path` is the file of some saved picture of the deck. */
  predicate IsDeckImage(path: string, slides: seq<Slide>)
  {
    exists s, i :: 1 <= s <= |slides| && 0 <= i < |SavedPictures(slides[s - 1])| && path == ImageFile(s, i)
  }

  lemma {:induction false} WriteSlideSpec(files: map<string, seq<bv8>>, slideNumber: int, pictures: seq<Shape>, n: nat)
    requires n <= |pictures| && forall i :: 0 <= i < |pictures| ==> pictures[i].Picture?
    ensures forall i :: 0 <= i < n ==>
              ImageFile(slideNumber, i) in WriteSlide(files, slideNumber, pictures, n)
              && WriteSlide(files, slideNumber, pictures, n)[ImageFile(slideNumber, i)] == pictures[i].blob
    ensures forall path :: path in files && !(exists j :: 0 <= j < n && path == ImageFile(slideNumber, j)) ==>
              path in WriteSlide(files, slideNumber, pictures, n) && WriteSlide(files, slideNumber, pictures, n)[path] == files[path]
    ensures forall path :: path in WriteSlide(files, slideNumber, pictures, n) ==>
              path in files || exists j :: 0 <= j < n && path == ImageFile(slideNumber, j)
    decreases n
  {
    if n > 0 {
      WriteSlideSpec(files, slideNumber, pictures, n - 1);
      forall i | 0 <= i < n - 1
        ensures ImageFile(slideNumber, i) != ImageFile(slideNumber, n - 1)
      {
        if ImageFile(slideNumber, i) == ImageFile(slideNumber, n - 1) {
          ImageFileInjective(slideNumber, i, slideNumber, n - 1);
        }
      }
    }
  }

  /** The saved pictures of a prefix of the shapes are a prefix of the saved
      pictures of the slide. */
  lemma {:induction false} SavedPicturesPrefix(shapes: seq<Shape>, j: nat)
    requires j <= |shapes|
    ensures |SavedPictures(shapes[..j])| <= |SavedPictures(shapes)|
    ensures SavedPictures(shapes[..j]) == SavedPictures(shapes)[..|SavedPictures(shapes[..j])|]
    decreases |shapes| - j
  {
    if j < |shapes| {
      SavedPicturesPrefix(shapes, j + 1);
      assert shapes[..j + 1][..j] == shapes[..j];
    } else {
      assert shapes[..j] == shapes;
    }
  }

  /** The rows of the first `k` slides come first, in slide order. */
  lemma {:induction false} DeckRowsPrefix(slides: seq<Slide>, k: nat)
    requires k <= |slides|
    ensures DeckRows(slides[..k]) <= DeckRows(slides)
    decreases |slides| - k
  {
    if k < |slides| {
      DeckRowsPrefix(slides, k + 1);
      assert slides[..k + 1][..k] == slides[..k];
    } else {
      assert slides[..k] == slides;
    }
  }

  /** The table is the rows of slide 1, then those of slide 2, and so on:
      slide `s` owns the rows between the rows of the slides before it and
      the rows of the slides up to it. */
  lemma DeckRowsSpec(slides: seq<Slide>, s: nat)
    requires 1 <= s <= |slides|
    ensures var before, upTo := DeckRows(slides[..s - 1]), DeckRows(slides[..s]);
            |before| <= |upTo| <= |DeckRows(slides)|
            && DeckRows(slides)[|before|..|upTo|]
               == SlideRows(s, |SavedPictures(slides[s - 1])|, SlideTexts(slides[s - 1]))
  {
    DeckRowsPrefix(slides, s);
    var t := slides[..s];
    assert t[..s - 1] == slides[..s - 1];
    assert t[s - 1] == slides[s - 1];
    var before, upTo := DeckRows(slides[..s - 1]), DeckRows(t);
    var all := DeckRows(slides);
    assert upTo == before + SlideRows(s, |SavedPictures(slides[s - 1])|, SlideTexts(slides[s - 1]));
    assert all[..|upTo|] == upTo;
    assert all[|before|..|upTo|] == upTo[|before|..];
  }

  /** What the preprocessor writes: image files and the table, by path. */
  datatype Disk = Disk(images: map<string, seq<bv8>>, tables: map<string, seq<Row>>)

  /** One more shape: a large picture is the next saved picture. */
  lemma SavedPicturesStep(shapes: seq<Shape>, j: nat)
    requires j < |shapes|
    ensures |SavedPictures(shapes[..j])| <= |SavedPictures(shapes)|
    ensures |SavedPictures(shapes[..j + 1])|
            == |SavedPictures(shapes[..j])| + (if Saved(shapes[j]) then 1 else 0)
    ensures Saved(shapes[j]) ==> |SavedPictures(shapes[..j])| < |SavedPictures(shapes)|
                                 && SavedPictures(shapes)[|SavedPictures(shapes[..j])|] == shapes[j]
  {
    SavedPicturesPrefix(shapes, j);
    SavedPicturesPrefix(shapes, j + 1);
    var upTo := shapes[..j + 1];
    assert upTo[..j] == shapes[..j];
    assert upTo[j] == shapes[j];
    if Saved(shapes[j]) {
      var n := |SavedPictures(shapes[..j])|;
      assert SavedPictures(upTo) == SavedPictures(shapes[..j]) + [shapes[j]];
      assert SavedPictures(shapes)[..n + 1][n] == shapes[j];
    }
  }

  /** The innermost loop of `extract_images_from_pptx`: one row per slide
      text for the picture just saved. */
  method AppendImageRows(data: seq<Row>, slideNumber: int, index: int, texts: seq<string>) returns (r: seq<Row>)
    ensures r == data + ImageRows(slideNumber, index, texts)
  {
    var imageName := ImageName(slideNumber, index);
    r := data;
    for t := 0 to |texts|
      invariant r == data + ImageRows(slideNumber, index, texts)[..t]
    {
      assert ImageRows(slideNumber, index, texts)[..t + 1]
             == ImageRows(slideNumber, index, texts)[..t] + [Row(imageName, texts[t])];
      r := r + [Row(imageName, texts[t])];
    }
    assert ImageRows(slideNumber, index, texts)[..|texts|] == ImageRows(slideNumber, index, texts);
  }

  /** Saving one large picture: its file under index `index`, then its rows. */
  method SavePicture(slideNumber: int, index: int, shape: Shape, texts: seq<string>,
                     images: map<string, seq<bv8>>, data: seq<Row>)
    returns (images': map<string, seq<bv8>>, data': seq<Row>)
    requires shape.Picture?
    ensures images' == images[ImageFile(slideNumber, index) := shape.blob]
    ensures data' == data + ImageRows(slideNumber, index, texts)
  {
    var imageFilename := ImageName(slideNumber, index);
    images' := images[imageFilename + ".png" := shape.blob];
    data' := AppendImageRows(data, slideNumber, index, texts);
  }

  /** The next saved picture extends the written files and the rows by one
      picture. */
  lemma SaveStep(images: map<string, seq<bv8>>, data: seq<Row>, slideNumber: int, pictures: seq<Shape>,
                 k: nat, texts: seq<string>)
    requires k < |pictures| && forall i :: 0 <= i < |pictures| ==> pictures[i].Picture?
    ensures WriteSlide(images, slideNumber, pictures, k + 1)
            == WriteSlide(images, slideNumber, pictures, k)[ImageFile(slideNumber, k) := pictures[k].blob]
    ensures data + SlideRows(slideNumber, k + 1, texts)
            == (data + SlideRows(slideNumber, k, texts)) + ImageRows(slideNumber, k, texts)
  {
  }

  /** The picture loop of `extract_images_from_pptx` for one slide whose
      texts are `texts`: each large picture saved under the next index, with
      its rows. */
  method SaveSlidePictures(slideNumber: int, slide: Slide, texts: seq<string>, images: map<string, seq<bv8>>, data: seq<Row>)
    returns (images': map<string, seq<bv8>>, data': seq<Row>)
    ensures images' == WriteSlide(images, slideNumber, SavedPictures(slide), |SavedPictures(slide)|)
    ensures data' == data + SlideRows(slideNumber, |SavedPictures(slide)|, texts)
  {
    ghost var pictures := SavedPictures(slide);
    images', data' := images, data;
    var imgIndex := 0;
    for j := 0 to |slide|
      invariant imgIndex == |SavedPictures(slide[..j])| <= |pictures|
      invariant data' == data + SlideRows(slideNumber, imgIndex, texts)
      invariant images' == WriteSlide(images, slideNumber, pictures, imgIndex)
    {
      SavedPicturesStep(slide, j);
      var shape := slide[j];
      if shape.Picture? {
        if shape.width > MinWidth && shape.height > MinHeight {
          SaveStep(images, data, slideNumber, pictures, imgIndex, texts);
          images', data' := SavePicture(slideNumber, imgIndex, shape, texts, images', data');
          imgIndex := imgIndex + 1;
        }
      }
    }
    assert slide[..|slide|] == slide;
  }

  /** `extract_images_from_pptx(pptx_path)`, given the deck's slides: every
      large picture to its numbered file, and the rows to the table. */
  method ExtractImagesFromPptx(slides: seq<Slide>, disk: Disk) returns (d: Disk)
    ensures d == Disk(WriteDeck(disk.images, slides), disk.tables[TableFile := DeckRows(slides)])
  {
    var data: seq<Row> := [];
    var images := disk.images;
    for si := 0 to |slides|
      invariant data == DeckRows(slides[..si])
      invariant images == WriteDeck(disk.images, slides[..si])
    {
      assert slides[..si + 1][..si] == slides[..si] && slides[..si + 1][si] == slides[si];
      var slideTexts := ExtractTextFromSlide(slides[si]);
      images, data := SaveSlidePictures(si + 1, slides[si], slideTexts, images, data);
    }
    assert slides[..|slides|] == slides;
    d := Disk(images, disk.tables[TableFile := data]);
  }
}
