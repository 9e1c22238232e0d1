/**
 * The `/merge` request handler (project.py:45-113) without its web and file
 * plumbing: the validation order, the saves it performs, the ratio it hands
 * to the blend, and the names and URLs of the three outputs.
 */
module MergeEndpoint {
  import opened Wrappers
  import opened FileTypes
  import opened MixRatio
  import opened Blend

  /** An uploaded file as the handler sees it: only its client-side name matters here. */
  datatype FileField = FileField(filename: string)

  /** `request.files` and `request.form`, keyed by field name. */
  datatype Request = Request(files: map<string, FileField>, form: map<string, string>)

  /** The three ways a request is refused, each answered with status 400. */
  datatype Rejection = MissingFiles | NoSelectedFile | UnsupportedFileType {
    /** The `error` text of the JSON reply. */
    function Message(): string {
      match this
      case MissingFiles => "Missing files"
      case NoSelectedFile => "No selected file"
      case UnsupportedFileType => "Unsupported file type"
    }
  }

  /** The three refusals are told apart by their messages. */
  lemma MessagesDistinct()
    ensures MissingFiles.Message() != NoSelectedFile.Message()
    ensures MissingFiles.Message() != UnsupportedFileType.Message()
    ensures NoSelectedFile.Message() != UnsupportedFileType.Message()
  {
    assert MissingFiles.Message()[0] == 'M' && NoSelectedFile.Message()[0] == 'N' && UnsupportedFileType.Message()[0] == 'U';
  }

  /** The outcome of validation: refuse, or go on with the two file fields. */
  datatype Verdict = Reject(reason: Rejection) | Proceed(left: FileField, right: FileField)

  /** project.py:47-54: presence first, then empty names, then the allow-list. */
  function Validate(req: Request): (v: Verdict)
    ensures v == Reject(MissingFiles) <==> ("leftFile" !in req.files || "rightFile" !in req.files)
    ensures v == Reject(NoSelectedFile) <==>
              ("leftFile" in req.files && "rightFile" in req.files
               && (req.files["leftFile"].filename == "" || req.files["rightFile"].filename == ""))
    ensures v == Reject(UnsupportedFileType) <==>
              ("leftFile" in req.files && "rightFile" in req.files
               && req.files["leftFile"].filename != "" && req.files["rightFile"].filename != ""
               && !(AllowedFile(req.files["leftFile"].filename) && AllowedFile(req.files["rightFile"].filename)))
    ensures v.Proceed? <==>
              ("leftFile" in req.files && "rightFile" in req.files
               && AllowedFile(req.files["leftFile"].filename) && AllowedFile(req.files["rightFile"].filename))
    ensures v.Proceed? ==> v.left == req.files["leftFile"] && v.right == req.files["rightFile"]
  {
    if "leftFile" !in req.files || "rightFile" !in req.files then Reject(MissingFiles)
    else
      var leftf, rightf := req.files["leftFile"], req.files["rightFile"];
      if leftf.filename == "" || rightf.filename == "" then Reject(NoSelectedFile)
      else if !(AllowedFile(leftf.filename) && AllowedFile(rightf.filename)) then Reject(UnsupportedFileType)
      else
        AllowedFileRejections();
        Proceed(leftf, rightf)
  }

  /** project.py:77-80: the three output names share one identifier. */
  datatype OutputNames = OutputNames(png: string, jpg: string, bmp: string)

  function NamesFor(uid: string): (n: OutputNames)
    ensures |n.png| == |n.jpg| == |n.bmp| == |uid| + 11
    ensures n.png[..|uid|] == uid && n.jpg[..|uid|] == uid && n.bmp[..|uid|] == uid
    ensures n.png[|uid|..] == "_merged.png" && n.jpg[|uid|..] == "_merged.jpg" && n.bmp[|uid|..] == "_merged.bmp"
  {
    OutputNames(uid + "_merged.png", uid + "_merged.jpg", uid + "_merged.bmp")
  }

  /** The public URL of an output file. */
  function UrlFor(name: string): (url: string)
    ensures |url| == |"/static/outputs/"| + |name|
    ensures url[..|"/static/outputs/"|] == "/static/outputs/" && url[|"/static/outputs/"|..] == name
  {
    "/static/outputs/" + name
  }

  /** The three names of one request are pairwise different. */
  lemma NamesDistinct(uid: string)
    ensures var n := NamesFor(uid); n.png != n.jpg && n.png != n.bmp && n.jpg != n.bmp
  {
    var n := NamesFor(uid);
    var k := |uid| + 8;
    assert n.png[k] == 'p' && n.jpg[k] == 'j' && n.bmp[k] == 'b';
  }

  /** Different identifiers never produce a shared name, so concurrent requests do not collide. */
  lemma NamesInjective(uid: string, uid': string)
    requires uid != uid'
    ensures var n, n' := NamesFor(uid), NamesFor(uid');
            n.png != n'.png && n.jpg != n'.jpg && n.bmp != n'.bmp
            && n.png != n'.jpg && n.png != n'.bmp && n.jpg != n'.png && n.jpg != n'.bmp && n.bmp != n'.png && n.bmp != n'.jpg
  {
    var n, n' := NamesFor(uid), NamesFor(uid');
    if |uid| == |uid'| {
      assert n.png[..|uid|] == uid && n'.png[..|uid|] == uid';
      assert n.jpg[..|uid|] == uid && n'.jpg[..|uid|] == uid';
      assert n.bmp[..|uid|] == uid && n'.bmp[..|uid|] == uid';
    } else {
      assert |n.png| == |n.jpg| == |n.bmp| == |uid| + 11;
      assert |n'.png| == |n'.jpg| == |n'.bmp| == |uid'| + 11;
    }
  }

  /** The RGB copy `merged.convert('RGB')` hands to the JPEG encoder: the alpha channel dropped. */
  datatype Rgb = Rgb(r: Byte, g: Byte, b: Byte)

  /** What an output file is encoded from. */
  datatype Raster = Rgba(image: Image) | RgbOnly(width: nat, height: nat, rows: seq<seq<Rgb>>)

  function DropAlpha(img: Image): (out: Raster)
    requires Valid(img)
    ensures out.RgbOnly? && out.width == img.width && out.height == img.height && |out.rows| == img.height
    ensures forall i :: 0 <= i < img.height ==> |out.rows[i]| == img.width
    ensures forall i, j :: 0 <= i < img.height && 0 <= j < img.width ==>
              var p := img.rows[i][j]; out.rows[i][j] == Rgb(p.r, p.g, p.b)
  {
    RgbOnly(img.width, img.height,
            seq(img.height, i requires 0 <= i < img.height =>
              seq(img.width, j requires 0 <= j < img.width =>
                var p := img.rows[i][j]; Rgb(p.r, p.g, p.b))))
  }

  /** The encoders the outputs are written with. */
  datatype Format = Png | Jpeg(quality: nat) | Bmp

  /** The writes the handler performs, in order. */
  datatype Effect =
    | SaveUpload(uid: string, filename: string)  // into the upload directory, as uid + '_' + secure_filename(filename)
    | SaveOutput(name: string, format: Format, raster: Raster)  // into the output directory

  /** The JSON reply. */
  datatype Body = Error(message: string) | Urls(pngUrl: string, jpgUrl: string, bmpUrl: string, previewUrl: string)

  datatype Response = Response(status: nat, body: Body, effects: seq<Effect>)

  /** `request.form.get(key, default)` */
  function FormGet(form: map<string, string>, key: string): (v: Option<string>)
    ensures key in form <==> v.Some?
    ensures key in form ==> v.value == form[key]
  {
    if key in form then Some(form[key]) else None
  }

  /**
   * The whole handler. `leftUid`, `rightUid` and `outUid` are the three
   * `uuid.uuid4()` values it draws, `left` and `right` the decoded RGBA
   * contents of the two uploads, `resample` the LANCZOS resize.
   */
  function Handle(req: Request, leftUid: string, rightUid: string, outUid: string,
                  left: Image, right: Image, resample: (Image, nat, nat) -> Image): (resp: Response)
    requires Valid(left) && Valid(right) && IsResampler(resample)
    ensures resp.status == 400 <==> Validate(req).Reject?
    ensures Validate(req).Reject? ==> resp.body == Error(Validate(req).reason.Message()) && resp.effects == []
    ensures Validate(req).Proceed? ==> resp.status == 200 && resp.body.Urls? && |resp.effects| == 5
  {
    match Validate(req)
    case Reject(reason) => Response(400, Error(reason.Message()), [])
    case Proceed(leftf, rightf) =>
      var pct := LeftPct(FormGet(req.form, "leftPct"));
      var merged := MergeImages(left, right, pct, resample);
      var names := NamesFor(outUid);
      Response(200,
               Urls(UrlFor(names.png), UrlFor(names.jpg), UrlFor(names.bmp), UrlFor(names.png)),
               [SaveUpload(leftUid, leftf.filename), SaveUpload(rightUid, rightf.filename),
                SaveOutput(names.png, Png, Rgba(merged)),
                SaveOutput(names.jpg, Jpeg(90), DropAlpha(merged)),
                SaveOutput(names.bmp, Bmp, Rgba(merged))])
  }

  /** A refused request writes nothing, and the first failing check names the reason. */
  lemma RejectionsWriteNothing(req: Request, leftUid: string, rightUid: string, outUid: string,
                               left: Image, right: Image, resample: (Image, nat, nat) -> Image)
    requires Valid(left) && Valid(right) && IsResampler(resample)
    requires !("leftFile" in req.files && "rightFile" in req.files
               && AllowedFile(req.files["leftFile"].filename) && AllowedFile(req.files["rightFile"].filename))
    ensures var resp := Handle(req, leftUid, rightUid, outUid, left, right, resample);
            resp.status == 400 && resp.effects == [] && resp.body.Error?
  {
  }

  /** An empty file name is reported as such, not as an unsupported type, although it has no extension. */
  lemma EmptyNameBeforeType(req: Request)
    requires "leftFile" in req.files && "rightFile" in req.files
    requires req.files["leftFile"].filename == ""
    ensures Validate(req) == Reject(NoSelectedFile)
    ensures !AllowedFile(req.files["leftFile"].filename)
  {
    AllowedFileRejections();
  }

  /** The URLs of one uid: the output directory followed by the uid and each fixed suffix. */
  lemma UrlsOfUid(uid: string)
    ensures UrlFor(NamesFor(uid).png) == "/static/outputs/" + uid + "_merged.png"
    ensures UrlFor(NamesFor(uid).jpg) == "/static/outputs/" + uid + "_merged.jpg"
    ensures UrlFor(NamesFor(uid).bmp) == "/static/outputs/" + uid + "_merged.bmp"
  {
    assert "/static/outputs/" + (uid + "_merged.png") == "/static/outputs/" + uid + "_merged.png";
    assert "/static/outputs/" + (uid + "_merged.jpg") == "/static/outputs/" + uid + "_merged.jpg";
    assert "/static/outputs/" + (uid + "_merged.bmp") == "/static/outputs/" + uid + "_merged.bmp";
  }

  /**
   * An accepted request saves both uploads, then writes the PNG, JPEG
   * (quality 90, alpha dropped) and BMP files, all from one blend made at
   * the normalised form ratio.
   */
  lemma AcceptedRequestWrites(req: Request, leftUid: string, rightUid: string, outUid: string,
                              left: Image, right: Image, resample: (Image, nat, nat) -> Image)
    requires Valid(left) && Valid(right) && IsResampler(resample)
    requires "leftFile" in req.files && "rightFile" in req.files
    requires AllowedFile(req.files["leftFile"].filename) && AllowedFile(req.files["rightFile"].filename)
    ensures var merged := MergeImages(left, right, LeftPct(FormGet(req.form, "leftPct")), resample);
            Handle(req, leftUid, rightUid, outUid, left, right, resample).effects ==
              [SaveUpload(leftUid, req.files["leftFile"].filename),
               SaveUpload(rightUid, req.files["rightFile"].filename),
               SaveOutput(outUid + "_merged.png", Png, Rgba(merged)),
               SaveOutput(outUid + "_merged.jpg", Jpeg(90), DropAlpha(merged)),
               SaveOutput(outUid + "_merged.bmp", Bmp, Rgba(merged))]
  {
    assert Validate(req) == Proceed(req.files["leftFile"], req.files["rightFile"]);
  }

  /** An accepted request answers 200 with the three URLs, and the preview is the PNG. */
  lemma AcceptedRequestUrls(req: Request, leftUid: string, rightUid: string, outUid: string,
                            left: Image, right: Image, resample: (Image, nat, nat) -> Image)
    requires Valid(left) && Valid(right) && IsResampler(resample)
    requires "leftFile" in req.files && "rightFile" in req.files
    requires AllowedFile(req.files["leftFile"].filename) && AllowedFile(req.files["rightFile"].filename)
    ensures var resp := Handle(req, leftUid, rightUid, outUid, left, right, resample);
            && resp.status == 200
            && resp.body == Urls("/static/outputs/" + outUid + "_merged.png",
                                 "/static/outputs/" + outUid + "_merged.jpg",
                                 "/static/outputs/" + outUid + "_merged.bmp",
                                 "/static/outputs/" + outUid + "_merged.png")
            && resp.body.previewUrl == resp.body.pngUrl
  {
    assert Validate(req) == Proceed(req.files["leftFile"], req.files["rightFile"]);
    UrlsOfUid(outUid);
  }

  /** Every output of one request has the same size, the left image's. */
  lemma OutputsShareOneImage(req: Request, leftUid: string, rightUid: string, outUid: string,
                             left: Image, right: Image, resample: (Image, nat, nat) -> Image)
    requires Valid(left) && Valid(right) && IsResampler(resample)
    requires Validate(req).Proceed?
    ensures var resp := Handle(req, leftUid, rightUid, outUid, left, right, resample);
            && resp.effects[2].SaveOutput? && resp.effects[3].SaveOutput? && resp.effects[4].SaveOutput?
            && RasterWidth(resp.effects[2].raster) == RasterWidth(resp.effects[3].raster)
               == RasterWidth(resp.effects[4].raster) == left.width
            && RasterHeight(resp.effects[2].raster) == RasterHeight(resp.effects[3].raster)
               == RasterHeight(resp.effects[4].raster) == left.height
  {
    var pct := LeftPct(FormGet(req.form, "leftPct"));
    var merged := MergeImages(left, right, pct, resample);
    AcceptedRequestWrites(req, leftUid, rightUid, outUid, left, right, resample);
    assert RasterWidth(DropAlpha(merged)) == merged.width && RasterHeight(DropAlpha(merged)) == merged.height;
  }

  function RasterWidth(r: Raster): nat {
    match r
    case Rgba(img) => img.width
    case RgbOnly(w, _, _) => w
  }

  function RasterHeight(r: Raster): nat {
    match r
    case Rgba(img) => img.height
    case RgbOnly(_, h, _) => h
  }
}
