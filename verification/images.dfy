/** `src/image.rs`: the image record, magic-number sniffing on a hex string,
    the data-URI builder, the body of the `async` dialog unit, and what the
    thread "Add Image" spawns actually delivers (nothing: the unit's future is
    dropped unpolled). */
module Images {
  import opened Wrappers
  import Hex
  import Base64
  import App

  // ---------------------------------------------------------------------
  // Magic numbers

  /** JFIF JPEG, PNG and GIF file signatures (first four bytes). */
  const JpegSignature: seq<byte> := [0xff, 0xd8, 0xff, 0xe0]
  const PngSignature: seq<byte> := [0x89, 0x50, 0x4e, 0x47]
  const GifSignature: seq<byte> := [0x47, 0x49, 0x46, 0x38]

  /** `file_type`: the image kind named by the anchored signature at the start
      of a hex string. `None` stands for the `panic!` on any other input. The
      three patterns differ in their first digit, so at most one can match and
      the order of the tests does not matter. */
  function FileType(hex: string): (r: Option<string>)
    ensures r == Some("jpeg") <==> StartsWith(hex, "ffd8ffe0")
    ensures r == Some("png") <==> StartsWith(hex, "89504e47")
    ensures r == Some("gif") <==> StartsWith(hex, "47494638")
    ensures r.Some? ==> r.value in {"jpeg", "png", "gif"}
  {
    if StartsWith(hex, "ffd8ffe0") then Some("jpeg")
    else if StartsWith(hex, "89504e47") then Some("png")
    else if StartsWith(hex, "47494638") then Some("gif")
    else None
  }

  /** The matches are anchored: a signature later in the string is ignored. */
  lemma FileTypeAnchored(head: string, tail: string)
    requires |head| >= 8 && FileType(head) == None
    ensures FileType(head + tail) == None
  {
    assert (head + tail)[..8] == head[..8];
  }

  /** For instance, a JPEG signature two digits in is not a JPEG. */
  lemma FileTypeAnchoredExample(tail: string)
    ensures FileType("00ffd8ffe0" + tail) == None
  {
    assert "00ffd8ffe0"[0] != "ffd8ffe0"[0];
    assert "00ffd8ffe0"[1] != "89504e47"[1];
    assert "00ffd8ffe0"[1] != "47494638"[1];
    FileTypeAnchored("00ffd8ffe0", tail);
  }

  /** The hex spelling of each signature. */
  lemma JpegHex()
    ensures Hex.Encode(JpegSignature) == "ffd8ffe0"
  {
    var e := Hex.Encode(JpegSignature);
    assert e[0] == Hex.Digit(15) == 'f' && e[1] == Hex.Digit(15) == 'f';
    assert e[2] == Hex.Digit(13) == 'd' && e[3] == Hex.Digit(8) == '8';
    assert e[4] == Hex.Digit(15) == 'f' && e[5] == Hex.Digit(15) == 'f';
    assert e[6] == Hex.Digit(14) == 'e' && e[7] == Hex.Digit(0) == '0';
  }

  lemma PngHex()
    ensures Hex.Encode(PngSignature) == "89504e47"
  {
    var e := Hex.Encode(PngSignature);
    assert e[0] == Hex.Digit(8) == '8' && e[1] == Hex.Digit(9) == '9';
    assert e[2] == Hex.Digit(5) == '5' && e[3] == Hex.Digit(0) == '0';
    assert e[4] == Hex.Digit(4) == '4' && e[5] == Hex.Digit(14) == 'e';
    assert e[6] == Hex.Digit(4) == '4' && e[7] == Hex.Digit(7) == '7';
  }

  lemma GifHex()
    ensures Hex.Encode(GifSignature) == "47494638"
  {
    var e := Hex.Encode(GifSignature);
    assert e[0] == Hex.Digit(4) == '4' && e[1] == Hex.Digit(7) == '7';
    assert e[2] == Hex.Digit(4) == '4' && e[3] == Hex.Digit(9) == '9';
    assert e[4] == Hex.Digit(4) == '4' && e[5] == Hex.Digit(6) == '6';
    assert e[6] == Hex.Digit(3) == '3' && e[7] == Hex.Digit(8) == '8';
  }

  /** The signature `v` begins with, if any. */
  predicate Recognised(v: seq<byte>)
  {
    StartsWith(v, JpegSignature) || StartsWith(v, PngSignature) || StartsWith(v, GifSignature)
  }

  /** Sniffing the hex encoding of a byte vector is the same as checking its
      first four bytes against the three signatures. */
  lemma FileTypeOfBytes(v: seq<byte>)
    ensures FileType(Hex.Encode(v)) == Some("jpeg") <==> StartsWith(v, JpegSignature)
    ensures FileType(Hex.Encode(v)) == Some("png") <==> StartsWith(v, PngSignature)
    ensures FileType(Hex.Encode(v)) == Some("gif") <==> StartsWith(v, GifSignature)
    ensures FileType(Hex.Encode(v)).Some? <==> Recognised(v)
  {
    JpegHex();
    PngHex();
    GifHex();
    Hex.StartsWithEncode(v, JpegSignature);
    Hex.StartsWithEncode(v, PngSignature);
    Hex.StartsWithEncode(v, GifSignature);
  }

  /** The first four bytes of `v`, or all of it when shorter. */
  function Head(v: seq<byte>): (h: seq<byte>)
    ensures |h| <= 4 && StartsWith(v, h)
  {
    if |v| < 4 then v else v[..4]
  }

  /** `file_type(&vec.to_hex())` depends only on the first four bytes. */
  lemma FileTypeOnlyHead(v: seq<byte>)
    ensures FileType(Hex.Encode(v)) == FileType(Hex.Encode(Head(v)))
  {
    FileTypeOfBytes(v);
    FileTypeOfBytes(Head(v));
    var h := Head(v);
    if |v| >= 4 {
      assert StartsWith(v, JpegSignature) <==> StartsWith(h, JpegSignature);
      assert StartsWith(v, PngSignature) <==> StartsWith(h, PngSignature);
      assert StartsWith(v, GifSignature) <==> StartsWith(h, GifSignature);
    }
  }

  // ---------------------------------------------------------------------
  // Data URIs

  const UriPrefix: string := "data:image/"
  const Base64Marker: string := ";base64,"

  /** `base64_from_vec`: the data URI `data:image/<ext>;base64,<payload>` for
      `v`, where `<ext>` is sniffed from the hex encoding and `<payload>` is
      the MIME Base64 with its CRLFs removed. `None` is the `file_type` panic.
      The result is the single-line standard encoding behind the header, and
      parsing it gives back the extension and every byte of `v`. */
  function DataUri(v: seq<byte>): (r: Option<string>)
    ensures r.Some? <==> Recognised(v)
    ensures r.Some? ==>
      && FileType(Hex.Encode(v)).Some?
      && r.value == UriPrefix + FileType(Hex.Encode(v)).value + Base64Marker + Base64.Encode(v)
      && Base64.NoLineBreaks(r.value)
      && ParseDataUri(r.value) == Some((FileType(Hex.Encode(v)).value, v))
  {
    FileTypeOfBytes(v);
    var ext := FileType(Hex.Encode(v));
    if ext.None? then None
    else
      var payload := Base64.StripCrlf(Base64.Mime(v));
      ExtsArePlain(ext.value);
      DataUriNoLineBreaks(ext.value, v);
      DataUriParses(ext.value, v);
      Some(UriPrefix + ext.value + Base64Marker + payload)
  }

  lemma ExtsArePlain(ext: string)
    requires ext in {"jpeg", "png", "gif"}
    ensures PlainExt(ext)
  {
    assert PlainExt("jpeg");
    assert PlainExt("png");
    assert PlainExt("gif");
  }

  /** What `file_type` can return: text without `;` and without line breaks. */
  predicate PlainExt(ext: string)
  {
    forall i :: 0 <= i < |ext| ==> ext[i] != ';' && ext[i] != '\r' && ext[i] != '\n'
  }

  lemma DataUriNoLineBreaks(ext: string, v: seq<byte>)
    requires PlainExt(ext)
    ensures Base64.NoLineBreaks(UriPrefix + ext + Base64Marker + Base64.Encode(v))
  {
    Base64.EncodeHasNoLineBreaks(v);
    assert Base64.NoLineBreaks(UriPrefix);
    assert Base64.NoLineBreaks(Base64Marker);
    Base64.NoLineBreaksAppend(UriPrefix, ext);
    Base64.NoLineBreaksAppend(UriPrefix + ext, Base64Marker);
    Base64.NoLineBreaksAppend(UriPrefix + ext + Base64Marker, Base64.Encode(v));
  }

  /** The index of the first `c` in `s`, if any. */
  function FirstIndex(s: string, c: char): (r: Option<nat>)
    ensures r.Some? ==> r.value < |s| && s[r.value] == c && c !in s[..r.value]
    ensures r.None? ==> c !in s
  {
    if s == [] then None
    else if s[0] == c then Some(0)
    else match FirstIndex(s[1..], c)
      case None => None
      case Some(k) => assert s[..k + 1] == [s[0]] + s[1..][..k]; Some(k + 1)
  }

  lemma {:induction false} FirstIndexAfter(a: string, b: string, c: char)
    requires c !in a && |b| > 0 && b[0] == c
    ensures FirstIndex(a + b, c) == Some(|a|)
  {
    if a == [] {
      assert a + b == b;
    } else {
      assert (a + b)[1..] == a[1..] + b;
      FirstIndexAfter(a[1..], b, c);
    }
  }

  /** Reads a `data:image/<ext>;base64,<payload>` URI back into its extension
      and bytes; `None` for anything of another shape. */
  function ParseDataUri(s: string): Option<(string, seq<byte>)>
  {
    if !StartsWith(s, UriPrefix) then None
    else
      var rest := s[|UriPrefix|..];
      match FirstIndex(rest, ';')
      case None => None
      case Some(k) =>
        if !StartsWith(rest[k..], Base64Marker) then None
        else match Base64.Decode(rest[k + |Base64Marker|..])
          case None => None
          case Some(bytes) => Some((rest[..k], bytes))
  }

  lemma DataUriParses(ext: string, v: seq<byte>)
    requires PlainExt(ext)
    ensures ParseDataUri(UriPrefix + ext + Base64Marker + Base64.Encode(v)) == Some((ext, v))
  {
    var p := Base64.Encode(v);
    var tail := Base64Marker + p;
    var rest := ext + tail;
    var s := UriPrefix + rest;
    assert s == UriPrefix + ext + Base64Marker + p;
    assert StartsWith(s, UriPrefix) by { assert s[..|UriPrefix|] == UriPrefix; }
    assert s[|UriPrefix|..] == rest;
    assert ';' !in ext;
    FirstIndexAfter(ext, tail, ';');
    assert rest[|ext|..] == tail;
    assert StartsWith(tail, Base64Marker) by { assert tail[..|Base64Marker|] == Base64Marker; }
    assert rest[..|ext|] == ext;
    assert rest[|ext| + |Base64Marker|..] == p;
    Base64.DecodeEncode(v);
  }

  // ---------------------------------------------------------------------
  // The image record

  /** An image: its alt text and data URI, plus fields serde skips (the
      texture handle `T`, the file name and path, the upload flag). */
  datatype Image<T> = Image(alt: string, data: string, texture: Option<T>,
                            name: string, path: string, isUpload: bool)

  /** `PartialEq for Image`: two images are equal when their data and alt
      text are. */
  predicate ImageEq<T>(a: Image<T>, b: Image<T>)
  {
    a.data == b.data && a.alt == b.alt
  }

  /** The equality ignores exactly the serde-skipped fields: `a` equals `b`
      if and only if copying `b`'s texture, name, path and upload flag into
      `a` makes the two records identical. */
  lemma ImageEqIgnoresSkipped<T>(a: Image<T>, b: Image<T>)
    ensures ImageEq(a, b) <==> a.(texture := b.texture, name := b.name, path := b.path, isUpload := b.isUpload) == b
  {
  }

  /** The record equality is an equivalence relation. */
  lemma ImageEqIsEquivalence<T>()
    ensures forall a: Image<T> :: ImageEq(a, a)
    ensures forall a: Image<T>, b: Image<T> :: ImageEq(a, b) <==> ImageEq(b, a)
    ensures forall a: Image<T>, b: Image<T>, c: Image<T> :: ImageEq(a, b) && ImageEq(b, c) ==> ImageEq(a, c)
  {
  }

  /** `Default for Image`: the placeholder shown for a project without images. */
  function DefaultImage<T>(): (r: Image<T>)
    ensures r.data == "/proxy-image.jpg" && r.alt == "No image for project"
    ensures !r.isUpload && r.texture == None && r.name == "" && r.path == ""
  {
    Image("No image for project", "/proxy-image.jpg", None, "", "", false)
  }

  /** `Image::new`: the default record with empty data and alt text, which
      therefore no longer equals the default. */
  function NewImage<T>(): (r: Image<T>)
    ensures r == DefaultImage().(data := "", alt := "")
    ensures !ImageEq(r, DefaultImage())
  {
    Image("", "", None, "", "", false)
  }

  // ---------------------------------------------------------------------
  // The "Add Image" background unit

  /** What the file dialog returns: an error, a cancel, or a picked file
      (its full path and its file name). */
  datatype DialogResult = DialogError | Cancelled | Picked(path: string, fileName: string)

  /** What a background unit leaves in its channel: exactly one envelope, or
      nothing because it panicked (the sender is dropped unsent, so the
      receiver reports `Disconnected` from then on). */
  datatype Delivery<P> = Sent(response: App.Response<P>) | Aborted

  /** The poll outcome the reconciler sees once the unit has finished. */
  function Observed<P>(d: Delivery<P>): (o: App.Poll<P>)
    ensures o.Ready? <==> d.Sent?
    ensures d.Sent? ==> o.response == d.response
    ensures d.Aborted? <==> o.Disconnected?
  {
    match d
    case Sent(r) => App.Ready(r)
    case Aborted => App.Disconnected
  }

  /** The body of `new_image_file_dialog` as written, as if its future were
      driven to completion (as spawned, it never is: see `SpawnedUnit`).
      `file` is the picked file's bytes, `pixels` what `from_path` returns as
      its first component (the decoded RGB8 buffer, `None` on a decode
      error), `texture` the handle the rendering context registers. A
      cancelled or failed dialog sends `Nothing`; a picked file sends one
      `Image` envelope, unless decoding fails or the data URI cannot be
      built: both panic. Note that the data URI is built from the pixel
      buffer, not from `file`. */
  function ImageFileDialog<T>(res: DialogResult, file: seq<byte>, pixels: Option<seq<byte>>, texture: T)
    : (d: Delivery<Image<T>>)
    ensures !res.Picked? ==> d == Sent(App.Nothing)
    ensures res.Picked? ==> (d.Sent? <==> pixels.Some? && Recognised(pixels.value))
    ensures res.Picked? && d.Sent? ==>
      && d.response.Image?
      && var img := d.response.payload;
      && img.path == res.path && img.name == res.fileName && img.texture == Some(texture)
      && img.alt == "" && !img.isUpload
      && ParseDataUri(img.data).Some? && ParseDataUri(img.data).value.1 == pixels.value
  {
    if !res.Picked? then Sent(App.Nothing)
    else if pixels.None? then Aborted
    else
      var uri := DataUri(pixels.value);
      if uri.None? then Aborted
      else Sent(App.Image(NewImage().(path := res.path, name := res.fileName, data := uri.value, texture := Some(texture))))
  }

  /** `new_image_file_dialog` with the data URI built from the file's own
      bytes, which the signature sniffing and the `image/<ext>` MIME type are
      about. Exactly one envelope is sent whenever the dialog did not pick a
      file, or the picked file decodes and carries a known signature; the
      image's data URI then decodes back to the file's bytes. */
  function ImageFileDialogFixed<T>(res: DialogResult, file: seq<byte>, pixels: Option<seq<byte>>, texture: T)
    : (d: Delivery<Image<T>>)
    ensures !res.Picked? ==> d == Sent(App.Nothing)
    ensures res.Picked? ==> (d.Sent? <==> pixels.Some? && Recognised(file))
    ensures res.Picked? && d.Sent? ==>
      && d.response.Image?
      && var img := d.response.payload;
      && img.path == res.path && img.name == res.fileName && img.texture == Some(texture)
      && img.alt == "" && !img.isUpload
      && FileType(Hex.Encode(file)).Some?
      && ParseDataUri(img.data) == Some((FileType(Hex.Encode(file)).value, file))
  {
    if !res.Picked? then Sent(App.Nothing)
    else if pixels.None? then Aborted
    else
      var uri := DataUri(file);
      if uri.None? then Aborted
      else Sent(App.Image(NewImage().(path := res.path, name := res.fileName, data := uri.value, texture := Some(texture))))
  }

  /** The discrepancy: a PNG file whose first decoded pixel is black. The
      as-written unit sniffs the pixel bytes `00 00 00`, finds no signature
      and panics, so no envelope is ever sent and the handle stays in the
      registry as `Disconnected`; the corrected unit delivers the image. */
  lemma PixelBufferSniffed(texture: int)
    ensures var res, file, pixels := Picked("/home/user/a.png", "a.png"), PngSignature + [0x0d, 0x0a], Some([0, 0, 0]);
      && ImageFileDialog(res, file, pixels, texture) == Aborted
      && Observed(ImageFileDialog(res, file, pixels, texture)) == App.Disconnected
      && ImageFileDialogFixed(res, file, pixels, texture).Sent?
  {
    var file: seq<byte> := PngSignature + [0x0d, 0x0a];
    var px: seq<byte> := [0, 0, 0];
    assert StartsWith(file, PngSignature) by {
      assert file[..4] == PngSignature;
    }
    assert !Recognised(px);
  }

  // ---------------------------------------------------------------------
  // The thread spawned by "Add Image"

  /** What the thread spawned by "Add Image" delivers, as written. Calling the
      `async fn new_image_file_dialog` only builds a future; the closure drops
      that future without polling it, and the captured sender is dropped with
      it. Whatever the dialog would have produced, nothing is sent and the
      receiver reports `Disconnected`. */
  function SpawnedUnit<T>(res: DialogResult, file: seq<byte>, pixels: Option<seq<byte>>, texture: T)
    : (d: Delivery<Image<T>>)
    ensures d != ImageFileDialog(res, file, pixels, texture) <==> !res.Picked? || (pixels.Some? && Recognised(pixels.value))
    ensures Observed(d) == App.Disconnected
  {
    Aborted
  }

  /** The consequence: the handle "Add Image" registers is never removed,
      however many frames pass and whatever is clicked on them, so the
      registry never empties again. Frames that poll before the thread has
      dropped the future see `Empty`; later ones see `Disconnected`; neither
      has a value. */
  lemma AddImageHandleStays<T, H>(p: App.Portfolio<Image<T>, H>, h: H, frames: seq<App.FrameInput<Image<T>, H>>,
                                  res: DialogResult, file: seq<byte>, pixels: Option<seq<byte>>, texture: T)
    requires forall k :: 0 <= k < |frames| ==>
      frames[k].poll(h) == App.Empty || frames[k].poll(h) == Observed(SpawnedUnit(res, file, pixels, texture))
    ensures h in App.Frames(App.AddImage(p, h), frames).tasks
    ensures |App.Frames(App.AddImage(p, h), frames).tasks| > 0
  {
    var p' := App.AddImage(p, h);
    assert p'.tasks[|p.tasks|] == h;
    App.UnansweredStays(p', frames, h);
  }

  /** With the unit driven to completion (its future awaited, for example
      with a runtime's `block_on`) and the data URI built from the file's
      bytes, the frame that sees its envelope removes the new handle and
      applies the envelope once: a cancelled or failed dialog adds no image,
      a picked file adds exactly its image after the images the older
      handles delivered. */
  lemma AwaitedUnitDelivers<T, H>(p: App.Portfolio<Image<T>, H>, h: H, poll: H -> App.Poll<Image<T>>,
                                  res: DialogResult, file: seq<byte>, pixels: Option<seq<byte>>, texture: T)
    requires poll(h) == Observed(ImageFileDialogFixed(res, file, pixels, texture))
    requires !res.Picked? || (pixels.Some? && Recognised(file))
    ensures var d, r := ImageFileDialogFixed(res, file, pixels, texture), App.CheckTasks(App.AddImage(p, h), poll);
      && h !in r.tasks
      && r.tasks == App.Pending(p.tasks, poll)
      && r.images == p.images + App.ReadyImages(p.tasks, poll) + (if res.Picked? then [d.response.payload] else [])
  {
    var d := ImageFileDialogFixed(res, file, pixels, texture);
    var q := App.AddImage(p, h);
    assert q.tasks == p.tasks + [h];
    App.CheckTasksMembership(q, poll, h);
    App.PendingSnoc(p.tasks, h, poll);
    App.ReadyImagesSnoc(p.tasks, h, poll);
  }
}
