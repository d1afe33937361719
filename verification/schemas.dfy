/** The form schema of a daily devotional ("dakwah") post. */
module DakwahSchema {
  import opened JsValues
  import opened Zod

  const TitleMax := 32
  const DescriptionMax := 120

  datatype DakwahForm = DakwahForm(title: JsValue, description: JsValue, imageUrl: JsValue, published: JsValue)

  /** A character of `[a-zA-Z0-9\s]`. */
  predicate IsPlainChar(c: char) {
    IsAsciiLetter(c) || IsAsciiDigit(c) || IsWhitespace(c)
  }

  /** `/^[a-zA-Z0-9\s]+$/`: one or more plain characters and nothing else. */
  predicate PlainText(s: string): (b: bool)
    ensures b ==> s != [] && forall i :: 0 <= i < |s| ==> s[i] as int <= 0xFFFF
  {
    |s| >= 1 && forall i :: 0 <= i < |s| ==> IsPlainChar(s[i])
  }

  /** Every issue the schema reports for a form, field by field. */
  function Issues(form: DakwahForm, isUrl: string -> bool): (issues: seq<Issue>)
    ensures forall i :: 0 <= i < |issues| ==>
              issues[i].path in {"title", "description", "image_url", "published"}
  {
    StringField("title", form.title, false, [Min(1), Max(TitleMax), Pattern(PlainText)], isUrl, NoEmail)
    + StringField("description", form.description, false, [Min(1), Max(DescriptionMax), Pattern(PlainText)], isUrl, NoEmail)
    + StringField("image_url", form.imageUrl, false, [Min(1), Url], isUrl, NoEmail)
    + BooleanField("published", form.published, false)
  }

  /** Plain text is made of single UTF-16 code units, so its JavaScript length
      is its length in characters. */
  lemma PlainTextLength(s: string)
    requires PlainText(s)
    ensures Utf16Length(s) == |s|
  {
    assert forall i :: 0 <= i < |s| ==> s[i] as int <= 0xFFFF by {
      forall i | 0 <= i < |s| ensures s[i] as int <= 0xFFFF {
        assert IsPlainChar(s[i]);
      }
    }
  }

  /** A plain-text field of length 1 to `max`. */
  predicate PlainField(v: JsValue, max: nat) {
    v.Str? && 1 <= |v.s| <= max && PlainText(v.s)
  }

  lemma PlainFieldIssues(path: string, v: JsValue, max: nat, isUrl: string -> bool)
    ensures StringField(path, v, false, [Min(1), Max(max), Pattern(PlainText)], isUrl, NoEmail) == []
            <==> PlainField(v, max)
  {
    var checks := [Min(1), Max(max), Pattern(PlainText)];
    if v.Str? && PlainText(v.s) {
      PlainTextLength(v.s);
    }
    if StringField(path, v, false, checks, isUrl, NoEmail) == [] {
      assert Passes(checks[2], v.s, isUrl, NoEmail);
      assert Passes(checks[1], v.s, isUrl, NoEmail);
    }
  }

  /** A form is accepted exactly when the title has 1 to 32 plain characters,
      the description 1 to 120, the image URL is a non-empty URL, and
      `published` is a boolean. */
  lemma ValidIff(form: DakwahForm, isUrl: string -> bool)
    ensures Issues(form, isUrl) == [] <==>
              && PlainField(form.title, TitleMax)
              && PlainField(form.description, DescriptionMax)
              && form.imageUrl.Str? && form.imageUrl.s != "" && isUrl(form.imageUrl.s)
              && form.published.Bool?
  {
    PlainFieldIssues("title", form.title, TitleMax, isUrl);
    PlainFieldIssues("description", form.description, DescriptionMax, isUrl);
    var urlChecks := [Min(1), Url];
    if form.imageUrl.Str? && StringField("image_url", form.imageUrl, false, urlChecks, isUrl, NoEmail) == [] {
      assert Passes(urlChecks[0], form.imageUrl.s, isUrl, NoEmail);
      assert Passes(urlChecks[1], form.imageUrl.s, isUrl, NoEmail);
    }
  }

  /** Whitespace counts as plain text: a title of three spaces is accepted,
      while 33 characters or a punctuation mark are not. */
  lemma TitleExamples(isUrl: string -> bool)
    ensures PlainField(Str("   "), TitleMax)
    ensures !PlainField(Str("Kajian Subuh!"), TitleMax)
    ensures !PlainField(Str("abcdefghijklmnopqrstuvwxyzabcdefg"), TitleMax)
    ensures !PlainField(Str(""), TitleMax)
  {
    assert !IsPlainChar("Kajian Subuh!"[12]);
  }
}

/** The form schema of a homepage slider, in particular the rule on its button link. */
module HomeSliderSchema {
  import opened JsValues
  import opened Zod

  datatype SliderForm = SliderForm(
    image: JsValue, title: JsValue, subtitle: JsValue, description: JsValue,
    buttonText: JsValue, buttonLink: JsValue, bgGradient: JsValue,
    featured: JsValue, visible: JsValue)

  /** A character of `[a-zA-Z0-9/_-]`. */
  predicate IsPathChar(c: char) {
    IsAsciiLetter(c) || IsAsciiDigit(c) || c == '/' || c == '_' || c == '-'
  }

  /** `/^\/[a-zA-Z0-9/_-]+$/`: a slash, then at least one path character, and nothing else. */
  predicate RelativePath(s: string) {
    |s| >= 2 && s[0] == '/' && forall i :: 1 <= i < |s| ==> IsPathChar(s[i])
  }

  /** `/^https?:\/\//`: only the scheme prefix is looked at. */
  predicate HttpPrefix(s: string) {
    "http://" <= s || "https://" <= s
  }

  /** The refinement on the parsed value: falsy, a relative path, or an http(s) URL. */
  predicate LinkRefinement(v: JsValue) {
    !Truthy(v) || (v.Str? && (RelativePath(v.s) || HttpPrefix(v.s)))
  }

  /** `z.string().optional().refine(...)`: the refinement runs only on a value
      that passed the type check. */
  function ButtonLinkIssues(v: JsValue): (issues: seq<Issue>)
    ensures |issues| <= 1
    ensures forall i :: 0 <= i < |issues| ==> issues[i].path == "button_link"
  {
    var typed := StringField("button_link", v, true, [], NoEmail, NoEmail);
    if typed != [] then typed
    else if LinkRefinement(v) then []
    else [Issue("button_link", Custom)]
  }

  /** A button link is accepted exactly when it is absent, empty, a relative
      path of path characters, or starts with `http://` or `https://`. */
  lemma ButtonLinkIff(v: JsValue)
    ensures ButtonLinkIssues(v) == [] <==>
              v == Undefined || v == Str("")
              || (v.Str? && (RelativePath(v.s) || HttpPrefix(v.s)))
  {
  }

  lemma ButtonLinkAccepted()
    ensures ButtonLinkIssues(Undefined) == []
    ensures ButtonLinkIssues(Str("")) == []
    ensures ButtonLinkIssues(Str("/berita/kajian_2024-01")) == []
    ensures ButtonLinkIssues(Str("https://")) == []
    ensures ButtonLinkIssues(Str("http://a b")) == []
  {
    assert RelativePath("/berita/kajian_2024-01");
    assert "http://" <= "http://a b";
    assert "https://" <= "https://";
  }

  /** A lone slash, a space, a dot or another scheme fails the refinement;
      `null` already fails the type check. */
  lemma ButtonLinkRejected()
    ensures ButtonLinkIssues(Str("/")) == [Issue("button_link", Custom)]
    ensures ButtonLinkIssues(Str("/a b")) == [Issue("button_link", Custom)]
    ensures ButtonLinkIssues(Str("/page.html")) == [Issue("button_link", Custom)]
    ensures ButtonLinkIssues(Str("ftp://x")) == [Issue("button_link", Custom)]
    ensures ButtonLinkIssues(Null) == [Issue("button_link", InvalidType)]
  {
    assert !HttpPrefix("/");
    assert !RelativePath("/a b") && !HttpPrefix("/a b") by {
      assert !IsPathChar("/a b"[2]);
    }
    assert !RelativePath("/page.html") && !HttpPrefix("/page.html") by {
      assert !IsPathChar("/page.html"[5]);
    }
    assert !RelativePath("ftp://x") && !HttpPrefix("ftp://x") by {
      assert "ftp://x"[0] != 'h';
    }
  }

  /** The fields of the form, as issues name them. */
  const SliderFields := {"image", "title", "subtitle", "description", "button_text",
                         "button_link", "bg_gradient", "featured", "visible"}

  function Issues(form: SliderForm, isUrl: string -> bool): (issues: seq<Issue>)
    ensures forall i :: 0 <= i < |issues| ==> issues[i].path in SliderFields
  {
    var front := StringField("image", form.image, false, [Url], isUrl, NoEmail)
      + StringField("title", form.title, false, [Min(1)], isUrl, NoEmail)
      + StringField("subtitle", form.subtitle, true, [], isUrl, NoEmail)
      + StringField("description", form.description, true, [], isUrl, NoEmail);
    var back := StringField("button_text", form.buttonText, true, [], isUrl, NoEmail)
      + ButtonLinkIssues(form.buttonLink)
      + StringField("bg_gradient", form.bgGradient, true, [], isUrl, NoEmail)
      + BooleanField("featured", form.featured, true)
      + BooleanField("visible", form.visible, true);
    assert forall i :: 0 <= i < |front| ==> front[i].path in SliderFields;
    assert forall i :: 0 <= i < |back| ==> back[i].path in SliderFields;
    front + back
  }

  predicate OptionalString(v: JsValue) {
    v.Undefined? || v.Str?
  }

  predicate OptionalBoolean(v: JsValue) {
    v.Undefined? || v.Bool?
  }

  /** A slider form is accepted exactly when the image is a URL, the title is
      non-empty, the button link passes its rule, and every other field is
      absent or of its type. */
  lemma ValidIff(form: SliderForm, isUrl: string -> bool)
    ensures Issues(form, isUrl) == [] <==>
              && form.image.Str? && isUrl(form.image.s)
              && form.title.Str? && form.title.s != ""
              && OptionalString(form.subtitle) && OptionalString(form.description)
              && OptionalString(form.buttonText) && OptionalString(form.bgGradient)
              && ButtonLinkIssues(form.buttonLink) == []
              && OptionalBoolean(form.featured) && OptionalBoolean(form.visible)
  {
    var imageChecks := [Url];
    var titleChecks := [Min(1)];
    if form.image.Str? && StringField("image", form.image, false, imageChecks, isUrl, NoEmail) == [] {
      assert Passes(imageChecks[0], form.image.s, isUrl, NoEmail);
    }
    if form.title.Str? && StringField("title", form.title, false, titleChecks, isUrl, NoEmail) == [] {
      assert Passes(titleChecks[0], form.title.s, isUrl, NoEmail);
    }
  }
}
