/**
 * The `/` route of the application: a GET shows the form; a POST turns the
 * form fields into a QR code download or an error message.
 *
 * The QR encoder (`segno.make` followed by `qr.save`) is the parameter
 * `encode`, which maps the text and the image kind to the file's bytes.
 */
module Handler {
  import opened Wrappers
  import opened Text
  import opened FormCodec
  import opened QueryString
  import opened UrlParse
  import opened Utm

  /** The two image kinds `qr.save` is asked for. */
  datatype ImageKind = Png | Svg

  /** A request: a GET, or a POST with its form fields (the first value of each). */
  datatype Request = GetRequest | PostRequest(form: map<string, string>)

  /** What the handler answers. */
  datatype Response =
    | FormPage
      // the rendered HTML form
    | Message(body: string, status: int)
      // a plain-text body with an HTTP status
    | Download(filename: string, mimetype: string, content: seq<Byte>)
      // `send_file(..., as_attachment=True, download_name=filename, mimetype=mimetype)`
    | ServerError(error: ParseError)
      // the `ValueError` of `urlparse` escapes the handler; the server answers 500

  /** The UTM fields of the form, in the order of the `utm_params` dict. */
  const UtmFields: seq<string> := ["utm_source", "utm_medium", "utm_campaign", "utm_term", "utm_content"]

  lemma {:induction false} UtmFieldsDistinct()
    ensures forall i, j | 0 <= i < |UtmFields| && 0 <= j < |UtmFields| && i != j :: UtmFields[i] != UtmFields[j]
  {
    var f := UtmFields;
    assert f[0][4] == 's' && f[1][4] == 'm';
    assert |f[0]| == 10 && |f[1]| == 10 && |f[2]| == 12 && |f[3]| == 8 && |f[4]| == 11;
  }

  /** `request.form.get(name, default)`. */
  function Field(form: map<string, string>, name: string, default: string): string {
    if name in form then form[name] else default
  }

  /** `if enable_utm:` — the field is present and not the empty string. */
  predicate UtmEnabled(form: map<string, string>) {
    "enable_utm" in form && form["enable_utm"] != ""
  }

  /** The `utm_params` dict: each UTM field, stripped, empty when missing. */
  function UtmParams(form: map<string, string>): (os: Overrides)
    ensures |os| == |UtmFields|
    ensures forall i | 0 <= i < |UtmFields| :: os[i] == (UtmFields[i], Strip(Field(form, UtmFields[i], "")))
  {
    seq(|UtmFields|, i requires 0 <= i < |UtmFields| => (UtmFields[i], Strip(Field(form, UtmFields[i], ""))))
  }

  /** `request.form.get('data', '').strip()`. */
  function Data(form: map<string, string>): string {
    Strip(Field(form, "data", ""))
  }

  /**
   * The text that goes into the QR code: the stripped data, rewritten when
   * UTM is enabled. It fails only when UTM is enabled and `urlparse`
   * rejects the data.
   */
  function Payload(form: map<string, string>, data: string): (r: Result<string, ParseError>)
    ensures r.Err? <==> UtmEnabled(form) && Parse(data).Err?
  {
    if UtmEnabled(form) then Rewrite(data, UtmParams(form)) else Ok(data)
  }

  /** `index()`. */
  function Index(req: Request, encode: (string, ImageKind) -> seq<Byte>): (r: Response)
    ensures r.Message? ==> r.status == 400
    ensures r.Download? ==>
      (r.filename, r.mimetype) == ("qr.png", "image/png") || (r.filename, r.mimetype) == ("qr.svg", "image/svg+xml")
    ensures r == FormPage <==> req == GetRequest
  {
    match req
    case GetRequest => FormPage
    case PostRequest(form) =>
      var data := Data(form);
      var fmt := Field(form, "format", "png");
      if data == "" then Message("Error: No data provided", 400)
      else
        match Payload(form, data)
        case Err(e) => ServerError(e)
        case Ok(text) =>
          if fmt == "png" then Download("qr.png", "image/png", encode(text, Png))
          else if fmt == "svg" then Download("qr.svg", "image/svg+xml", encode(text, Svg))
          else Message("Error: Unsupported format", 400)
  }

  /** A POST is refused as having no data exactly when the data field is blank or missing. */
  lemma {:induction false} NoData(form: map<string, string>, encode: (string, ImageKind) -> seq<Byte>)
    ensures Index(PostRequest(form), encode) == Message("Error: No data provided", 400)
      <==> AllSpace(Field(form, "data", ""))
  {
  }

  /**
   * A POST with data is refused as unsupported exactly when the format is
   * neither `png` nor `svg` and the data could be read.
   */
  lemma {:induction false} UnsupportedFormat(form: map<string, string>, encode: (string, ImageKind) -> seq<Byte>)
    requires !AllSpace(Field(form, "data", ""))
    ensures Index(PostRequest(form), encode) == Message("Error: Unsupported format", 400)
      <==> Payload(form, Data(form)).Ok? && Field(form, "format", "png") != "png" && Field(form, "format", "png") != "svg"
  {
  }

  /**
   * The downloads: `png` gives `qr.png` of type `image/png`, `svg` gives
   * `qr.svg` of type `image/svg+xml`, each holding the encoded payload; a
   * form without a format field counts as `png`.
   */
  lemma {:induction false} Downloads(form: map<string, string>, encode: (string, ImageKind) -> seq<Byte>)
    requires !AllSpace(Field(form, "data", "")) && Payload(form, Data(form)).Ok?
    ensures var r := Index(PostRequest(form), encode);
      var fmt := Field(form, "format", "png");
      && (fmt == "png" <==> r == Download("qr.png", "image/png", encode(Payload(form, Data(form)).value, Png)))
      && (fmt == "svg" <==> r == Download("qr.svg", "image/svg+xml", encode(Payload(form, Data(form)).value, Svg)))
      && ("format" !in form ==> r == Download("qr.png", "image/png", encode(Payload(form, Data(form)).value, Png)))
  {
  }

  /**
   * An unreadable URL fails the request once UTM is enabled, before the
   * format is looked at.
   */
  lemma {:induction false} RewriteFailure(form: map<string, string>, encode: (string, ImageKind) -> seq<Byte>)
    requires UtmEnabled(form) && !AllSpace(Field(form, "data", ""))
    requires Parse(Strip(Field(form, "data", ""))).Err?
    ensures Index(PostRequest(form), encode) == ServerError(InvalidIPv6)
  {
    var url := Strip(Field(form, "data", ""));
    assert Payload(form, Data(form)) == Rewrite(url, UtmParams(form));
  }

  /**
   * Without `enable_utm` the UTM fields play no part: two forms that agree
   * on the data and the format get the same answer.
   */
  lemma {:induction false} UtmIgnored(f1: map<string, string>, f2: map<string, string>, encode: (string, ImageKind) -> seq<Byte>)
    requires !UtmEnabled(f1) && !UtmEnabled(f2)
    requires Field(f1, "data", "") == Field(f2, "data", "")
    requires Field(f1, "format", "png") == Field(f2, "format", "png")
    ensures Index(PostRequest(f1), encode) == Index(PostRequest(f2), encode)
  {
  }

  /**
   * Without `enable_utm` a POST with data never fails on the URL: it is a
   * download exactly for `png` and `svg`, and the code holds the stripped
   * data itself.
   */
  lemma {:induction false} PlainDownload(form: map<string, string>, encode: (string, ImageKind) -> seq<Byte>)
    requires !UtmEnabled(form) && !AllSpace(Field(form, "data", ""))
    ensures var r := Index(PostRequest(form), encode);
      var fmt := Field(form, "format", "png");
      && !r.ServerError?
      && (r.Download? <==> fmt == "png" || fmt == "svg")
      && (r.Download? ==> r.content == encode(Data(form), if fmt == "png" then Png else Svg))
  {
  }

  /**
   * With `enable_utm` but every UTM field blank or missing, the code holds a
   * URL with the components of the submitted one and a query that reads as
   * the same dict: only the spelling of the query may change.
   */
  lemma {:induction false} UntaggedPayload(form: map<string, string>)
    requires UtmEnabled(form) && Parse(Data(form)).Ok?
    requires forall i | 0 <= i < |UtmFields| :: AllSpace(Field(form, UtmFields[i], ""))
    ensures var c := Parse(Data(form)).value;
      && Payload(form, Data(form)).Ok?
      && Parse(Payload(form, Data(form)).value) == Ok(c.(query := UrlEncode(ParseQs(c.query))))
      && ParseQs(UrlEncode(ParseQs(c.query))) == ParseQs(c.query)
  {
    var os := UtmParams(form);
    forall j | 0 <= j < |os| ensures os[j].1 == "" {
      assert AllSpace(Field(form, UtmFields[j], ""));
    }
    RewriteNoValues(Data(form), os);
  }

  /**
   * Rewriting a readable URL with the form's UTM parameters gives a readable
   * URL whose query maps every UTM field that is not blank to exactly its
   * stripped value, and leaves the values of a blank UTM field's key as the
   * submitted URL had them.
   */
  lemma {:induction false} UtmTagged(form: map<string, string>, url: string, i: nat)
    requires Parse(url).Ok? && i < |UtmFields|
    ensures Rewrite(url, UtmParams(form)).Ok? && Parse(Rewrite(url, UtmParams(form)).value).Ok?
    ensures var key := UtmFields[i];
      var value := Strip(Field(form, key, ""));
      var before := ParseQs(Parse(url).value.query);
      var after := ParseQs(Parse(Rewrite(url, UtmParams(form)).value).value.query);
      QueryString.Get(after, key) == if value != "" then Some([value]) else QueryString.Get(before, key)
  {
    UtmParamsKeys(form, i);
    RewriteOverride(url, UtmParams(form), i);
  }

  /** The UTM parameters carry distinct keys, the field names themselves. */
  lemma {:induction false} UtmParamsKeys(form: map<string, string>, i: nat)
    requires i < |UtmFields|
    ensures forall j | 0 <= j < |UtmFields| && j != i :: UtmParams(form)[j].0 != UtmParams(form)[i].0
  {
    var os := UtmParams(form);
    forall j | 0 <= j < |UtmFields| && j != i
      ensures os[j].0 != os[i].0
    {
      UtmFieldsDistinct();
      assert os[j].0 == UtmFields[j];
    }
  }
}
