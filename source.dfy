/**
 * The playlist source normaliser (`Source` in src/js/playlist/source.ts).
 *
 * A playlist item source is a record of named fields. The normaliser takes an
 * optional raw record, rejects it when it has no `file`, merges in the
 * defaults `default: false` and `type: ''`, trims the file, splits a MIME
 * type given as `type`, classifies the file (YouTube, then RTMP, then the
 * explicit type, then the file extension), rejects it when no type was found,
 * maps type aliases to canonical names and finally deletes every field whose
 * value is the empty string.
 *
 * `SourceOf` is the specification of the whole normaliser as one function,
 * built from one function per step; `Source` is the normaliser as
 * `source.ts` writes it, updating one working record in place, and is proved
 * equal to `SourceOf`. The lemmas state what the normaliser promises about
 * its result in terms of the raw record.
 */
module PlaylistSource {

  import opened Wrappers
  import opened Mime

  /**
   * A field value. Strings and booleans are read by the normaliser; numbers
   * (width, height, liveSyncDuration) and opaque payloads (the DRM
   * configuration, the media-type list, the XHR callback) are only copied.
   */
  datatype Value = Str(s: string) | Bool(b: bool) | Num(n: int) | Opaque(handle: nat)

  /** A playlist item source, raw or normalised: field name to value. */
  type Record = map<string, Value>

  /**
   * The four collaborators the normaliser imports and whose code is not part
   * of this model. They are taken as arbitrary pure functions.
   */
  datatype Env = Env(
    isYouTube: string -> bool,
    isRtmp: string -> bool,
    trim: string -> string,
    extension: string -> string)

  /** The declared types of the fields the normaliser reads or writes. */
  predicate WellTyped(c: Record)
  {
    && ("file" in c ==> c["file"].Str?)
    && ("type" in c ==> c["type"].Str?)
    && ("mimeType" in c ==> c["mimeType"].Str?)
    && ("default" in c ==> c["default"].Bool?)
  }

  /** `file` is present and truthy: for a string, non-empty. */
  predicate HasFile(c: Record)
    ensures WellTyped(c) && "file" in c ==> (HasFile(c) <==> |c["file"].s| > 0)
  {
    "file" in c && c["file"] != Str("")
  }

  /** The `type` a raw record gives, `''` when it gives none. */
  function ConfigType(c: Record): string
    requires WellTyped(c)
  {
    if "type" in c then c["type"].s else ""
  }

  /** What a normalised source guarantees. */
  predicate ValidSource(r: Record)
  {
    && WellTyped(r)
    && "type" in r && r["type"] != Str("")
    && "default" in r
    && (forall k :: k in r ==> r[k] != Str(""))
  }

  // ---------------------------------------------------------------------
  // The steps, one function each

  const Defaults: Record := map["default" := Bool(false), "type" := Str("")]

  /** Lines 44-47: the defaults, overridden by every field the record gives. */
  function WithDefaults(c: Record): (w: Record)
    requires WellTyped(c)
    ensures WellTyped(w)
    ensures w.Keys == c.Keys + {"default", "type"}
    ensures forall k :: k in c ==> w[k] == c[k]
    ensures w["default"] == (if "default" in c then c["default"] else Bool(false))
    ensures w["type"] == Str(ConfigType(c))
  {
    Defaults + c
  }

  /** The type left by the MIME step for a given `type`. */
  function MimeStepType(t: string): (r: string)
    ensures MimeSubtype(t).Some? ==> r == MimeSubtype(t).value
    ensures MimeSubtype(t).None? ==> r == t
    ensures r == "" <==> t == ""
    ensures '/' in r ==> r == t
  {
    match MimeSubtype(t)
    case Some(sub) => sub
    case None => t
  }

  /**
   * Lines 53-60: when `type` is a MIME type, it moves to `mimeType` and
   * `type` becomes the captured subtype; otherwise nothing changes.
   */
  function SplitMime(w: Record): (w': Record)
    requires WellTyped(w) && "type" in w
    ensures WellTyped(w') && "type" in w'
    ensures w'["type"] == Str(MimeStepType(w["type"].s))
    ensures MimeSubtype(w["type"].s).Some? ==> w'.Keys == w.Keys + {"mimeType"} && w'["mimeType"] == w["type"]
    ensures MimeSubtype(w["type"].s).None? ==> w' == w
    ensures forall k :: k in w && k != "type" && k != "mimeType" ==> k in w' && w'[k] == w[k]
  {
    var t := w["type"].s;
    match MimeSubtype(t)
    case Some(sub) => w["mimeType" := Str(t)]["type" := Str(sub)]
    case None => w
  }

  /**
   * Lines 63-69: the type after classification of the trimmed file `f`,
   * given the type `t` left by the MIME step.
   */
  function Classify(f: string, t: string, env: Env): (r: string)
    ensures env.isYouTube(f) ==> r == "youtube"
    ensures !env.isYouTube(f) && env.isRtmp(f) ==> r == "rtmp"
    ensures !env.isYouTube(f) && !env.isRtmp(f) && t != "" ==> r == t
    ensures !env.isYouTube(f) && !env.isRtmp(f) && t == "" ==> r == env.extension(f)
    ensures r == "" <==> !env.isYouTube(f) && !env.isRtmp(f) && t == "" && env.extension(f) == ""
  {
    if env.isYouTube(f) then "youtube"
    else if env.isRtmp(f) then "rtmp"
    else if t == "" then env.extension(f)
    else t
  }

  /** The alias table of lines 76-94, as data. */
  const AliasTable: map<string, string> :=
    map["m3u8" := "hls", "vnd.apple.mpegurl" := "hls", "dash+xml" := "dash",
        "m4a" := "aac", "smil" := "rtmp"]

  /** Lines 76-94: aliases to canonical type names; other types unchanged. */
  function Canonical(t: string): (r: string)
    ensures r == (if t in AliasTable then AliasTable[t] else t)
    ensures r !in AliasTable
    ensures r == "" <==> t == ""
  {
    if t == "m3u8" || t == "vnd.apple.mpegurl" then "hls"
    else if t == "dash+xml" then "dash"
    else if t == "m4a" then "aac"
    else if t == "smil" then "rtmp"
    else t
  }

  /** Lines 97-101: every field whose value is exactly `''` removed. */
  function StripEmpty(w: Record): (r: Record)
    ensures forall k :: k in r <==> k in w && w[k] != Str("")
    ensures forall k :: k in r ==> r[k] == w[k]
  {
    map k | k in w && w[k] != Str("") :: w[k]
  }

  /** The whole normaliser, lines 38-104, as the composition of the steps. */
  function SourceOf(config: Option<Record>, env: Env): (r: Option<Record>)
    requires config.Some? ==> WellTyped(config.value)
    ensures r.Some? ==> config.Some? && HasFile(config.value)
    ensures r.Some? ==> ValidSource(r.value)
  {
    if config.None? || !HasFile(config.value) then None
    else
      var w := WithDefaults(config.value);
      var w := w["file" := Str(env.trim(w["file"].s))];
      var w := SplitMime(w);
      var t := Classify(w["file"].s, w["type"].s, env);
      if t == "" then None
      else Some(StripEmpty(w["type" := Str(Canonical(t))]))
  }

  // ---------------------------------------------------------------------
  // The normaliser as `source.ts` writes it: one working record, updated in place

  method Source(config: Option<Record>, env: Env) returns (result: Option<Record>)
    requires config.Some? ==> WellTyped(config.value)
    ensures result == SourceOf(config, env)
  {
    // file is the only hard requirement
    if config.None? || !HasFile(config.value) {
      return None;
    }

    var source := Defaults + config.value;
    source := source["file" := Str(env.trim(source["file"].s))];
    ghost var trimmed := WithDefaults(config.value)["file" := Str(env.trim(config.value["file"].s))];
    assert source == trimmed;

    var sType := source["type"].s;
    var sub := MimeSubtype(sType);
    if sub.Some? {
      source := source["mimeType" := Str(sType)];
      source := source["type" := Str(sub.value)];
    }
    ghost var split := SplitMime(trimmed);
    assert source == split;

    var file := source["file"].s;
    ghost var classified := Classify(file, source["type"].s, env);
    if env.isYouTube(file) {
      source := source["type" := Str("youtube")];
    } else if env.isRtmp(file) {
      source := source["type" := Str("rtmp")];
    } else if source["type"].s == "" {
      source := source["type" := Str(env.extension(file))];
    }

    assert source == split["type" := Str(classified)];
    if source["type"].s == "" {
      return None;
    }

    var sourceType := source["type"].s;
    if sourceType == "m3u8" || sourceType == "vnd.apple.mpegurl" {
      source := source["type" := Str("hls")];
    } else if sourceType == "dash+xml" {
      source := source["type" := Str("dash")];
    } else if sourceType == "m4a" {
      source := source["type" := Str("aac")];
    } else if sourceType == "smil" {
      source := source["type" := Str("rtmp")];
    }
    assert source == split["type" := Str(Canonical(classified))];

    // remove empty strings
    source := RemoveEmptyStrings(source);
    return Some(source);
  }

  /** Lines 97-101: the `forEach` over the keys, deleting each `''` field. */
  method RemoveEmptyStrings(source: Record) returns (cleaned: Record)
    ensures cleaned == StripEmpty(source)
  {
    cleaned := source;
    var keys := source.Keys;
    while keys != {}
      invariant keys <= source.Keys
      invariant forall k :: k in cleaned <==> k in source && (k in keys || source[k] != Str(""))
      invariant forall k :: k in cleaned ==> cleaned[k] == source[k]
      decreases keys
    {
      var key :| key in keys;
      if cleaned[key] == Str("") {
        cleaned := cleaned - {key};
      }
      keys := keys - {key};
    }
  }

  // ---------------------------------------------------------------------
  // What the normaliser promises

  /** Lines 39-42: no record, or a record without a truthy `file`, gives nothing. */
  lemma RejectsWithoutFile(config: Option<Record>, env: Env)
    requires config.Some? ==> WellTyped(config.value)
    requires config.None? || !HasFile(config.value)
    ensures SourceOf(config, env) == None
  {
  }

  /** The trimmed file of a record with a file. */
  function TrimmedFile(c: Record, env: Env): string
    requires WellTyped(c) && HasFile(c)
  {
    env.trim(c["file"].s)
  }

  /**
   * Lines 63-73: a record with a file is rejected exactly when no type can
   * be found: the file is neither YouTube nor RTMP, the type left by the
   * MIME step is empty, and the file has no extension.
   */
  lemma AcceptedIffTypeFound(c: Record, env: Env)
    requires WellTyped(c) && HasFile(c)
    ensures var f := TrimmedFile(c, env);
            SourceOf(Some(c), env).Some? <==>
              env.isYouTube(f) || env.isRtmp(f) ||
              MimeStepType(ConfigType(c)) != "" || env.extension(f) != ""
  {
  }

  /** The result's type is the classified type, through the alias table. */
  lemma ResultType(c: Record, env: Env)
    requires WellTyped(c) && HasFile(c)
    ensures var r := SourceOf(Some(c), env);
            var t := Classify(TrimmedFile(c, env), MimeStepType(ConfigType(c)), env);
            (r.Some? <==> t != "") && (r.Some? ==> r.value["type"] == Str(Canonical(t)))
  {
    var f := TrimmedFile(c, env);
    var w := SplitMime(WithDefaults(c)["file" := Str(f)]);
    assert w["file"] == Str(f);
    assert w["type"] == Str(MimeStepType(ConfigType(c)));
  }

  /**
   * Lines 63-69 and 76-94: the type of the result, by priority. YouTube wins
   * over everything, RTMP over an explicit type, and the extension is used
   * only when the MIME step left no type.
   */
  lemma TypePriority(c: Record, env: Env)
    requires WellTyped(c) && HasFile(c)
    ensures var f := TrimmedFile(c, env);
            var r := SourceOf(Some(c), env);
            var t := MimeStepType(ConfigType(c));
            && (env.isYouTube(f) ==> r.Some? && r.value["type"] == Str("youtube"))
            && (!env.isYouTube(f) && env.isRtmp(f) ==> r.Some? && r.value["type"] == Str("rtmp"))
            && (!env.isYouTube(f) && !env.isRtmp(f) && t != "" ==>
                  r.Some? && r.value["type"] == Str(Canonical(t)))
            && (!env.isYouTube(f) && !env.isRtmp(f) && t == "" && env.extension(f) != "" ==>
                  r.Some? && r.value["type"] == Str(Canonical(env.extension(f))))
  {
    ResultType(c, env);
  }

  /** Lines 44-47 and 97-101: `default` is the record's own, `false` otherwise. */
  lemma DefaultField(c: Record, env: Env)
    requires WellTyped(c)
    requires SourceOf(Some(c), env).Some?
    ensures var r := SourceOf(Some(c), env).value;
            "default" in r && r["default"] == (if "default" in c then c["default"] else Bool(false))
  {
    var f := TrimmedFile(c, env);
    var w := SplitMime(WithDefaults(c)["file" := Str(f)]);
    assert w["default"] == WithDefaults(c)["default"];
  }

  /**
   * Lines 50 and 97-101: the result's `file` is the trimmed file, and is
   * missing when trimming leaves nothing (a whitespace-only file).
   */
  lemma FileField(c: Record, env: Env)
    requires WellTyped(c)
    requires SourceOf(Some(c), env).Some?
    ensures var r := SourceOf(Some(c), env).value;
            var f := TrimmedFile(c, env);
            ("file" in r <==> f != "") && ("file" in r ==> r["file"] == Str(f))
  {
    var f := TrimmedFile(c, env);
    var w := SplitMime(WithDefaults(c)["file" := Str(f)]);
    assert w["file"] == Str(f);
  }

  /**
   * Lines 53-60 and 97-101: a MIME type given as `type` is kept whole in
   * `mimeType`; otherwise `mimeType` is the record's own, unless empty.
   */
  lemma MimeTypeField(c: Record, env: Env)
    requires WellTyped(c)
    requires SourceOf(Some(c), env).Some?
    ensures var r := SourceOf(Some(c), env).value;
            var t := ConfigType(c);
            && (MimeSubtype(t).Some? ==> "mimeType" in r && r["mimeType"] == Str(t))
            && (MimeSubtype(t).None? ==>
                  ("mimeType" in r <==> "mimeType" in c && c["mimeType"] != Str("")) &&
                  ("mimeType" in r ==> r["mimeType"] == c["mimeType"]))
  {
    var f := TrimmedFile(c, env);
    var w0 := WithDefaults(c)["file" := Str(f)];
    var w := SplitMime(w0);
    assert w0["type"] == Str(ConfigType(c));
    if MimeSubtype(ConfigType(c)).Some? {
      assert w["mimeType"] == Str(ConfigType(c));
      assert ConfigType(c) != "";
    } else {
      assert w == w0;
    }
  }

  /**
   * Lines 44-47 and 97-101: every field the normaliser does not rewrite is
   * copied from the record, and is dropped exactly when it is `''`; `false`
   * and `0` are kept.
   */
  lemma PassThrough(c: Record, env: Env, k: string)
    requires WellTyped(c)
    requires SourceOf(Some(c), env).Some?
    requires k != "file" && k != "type" && k != "mimeType" && k != "default"
    ensures var r := SourceOf(Some(c), env).value;
            (k in r <==> k in c && c[k] != Str("")) && (k in r ==> r[k] == c[k])
  {
    var f := TrimmedFile(c, env);
    var w0 := WithDefaults(c)["file" := Str(f)];
    assert k in w0 <==> k in c;
  }

  /** Lines 76-94: applying the alias table twice is applying it once. */
  lemma CanonicalIdempotent(t: string)
    ensures Canonical(Canonical(t)) == Canonical(t)
  {
  }

  /** A type that is not a MIME type stays so through the alias table. */
  lemma CanonicalKeepsNonMime(t: string)
    requires MimeSubtype(t).None?
    ensures MimeSubtype(Canonical(t)).None?
  {
    if t in AliasTable {
      var r := Canonical(t);
      assert '/' !in r;
    }
  }

  /**
   * A valid source whose file the trimmer keeps, whose type is not a MIME
   * type, and whose type classification and the alias table give back, is
   * left unchanged by the normaliser.
   */
  lemma FixedPoint(r: Record, env: Env)
    requires ValidSource(r) && "file" in r
    requires env.trim(r["file"].s) == r["file"].s
    requires MimeSubtype(r["type"].s).None?
    requires Canonical(Classify(r["file"].s, r["type"].s, env)) == r["type"].s
    ensures SourceOf(Some(r), env) == Some(r)
  {
    var w := WithDefaults(r);
    assert w == r;
    var w1 := w["file" := Str(env.trim(w["file"].s))];
    assert w1 == r;
    assert SplitMime(w1) == r;
    var t := Classify(r["file"].s, r["type"].s, env);
    assert r["type" := Str(Canonical(t))] == r;
    assert StripEmpty(r) == r;
  }

  /**
   * The type of a result is never a MIME type, provided the file's extension
   * has no slash.
   */
  lemma ResultTypeNotMime(c: Record, env: Env)
    requires WellTyped(c)
    requires SourceOf(Some(c), env).Some?
    requires '/' !in env.extension(TrimmedFile(c, env))
    ensures var r := SourceOf(Some(c), env).value;
            MimeSubtype(r["type"].s).None? &&
            Canonical(Classify(TrimmedFile(c, env), r["type"].s, env)) == r["type"].s
  {
    var r := SourceOf(Some(c), env).value;
    var f := TrimmedFile(c, env);
    var t := MimeStepType(ConfigType(c));
    var t1 := Classify(f, t, env);
    ResultType(c, env);
    assert r["type"].s == Canonical(t1);
    if env.isYouTube(f) || env.isRtmp(f) {
      assert '/' !in t1;
    } else if t != "" {
      if MimeSubtype(ConfigType(c)).Some? {
        assert '/' !in t1;
      } else {
        CanonicalKeepsNonMime(t1);
      }
    } else {
      assert t1 == env.extension(f);
    }
    CanonicalIdempotent(t1);
  }

  /**
   * Normalising a normalised source changes nothing, provided the trimmer
   * leaves its file as it is and the file's extension has no slash. A source
   * whose file was dropped (a whitespace-only file) is excluded: fed back, it
   * has no file and is rejected.
   */
  lemma SourceIdempotent(c: Record, env: Env)
    requires WellTyped(c)
    requires SourceOf(Some(c), env).Some?
    requires "file" in SourceOf(Some(c), env).value
    requires env.trim(TrimmedFile(c, env)) == TrimmedFile(c, env)
    requires '/' !in env.extension(TrimmedFile(c, env))
    ensures SourceOf(SourceOf(Some(c), env), env) == SourceOf(Some(c), env)
  {
    var r := SourceOf(Some(c), env).value;
    FileField(c, env);
    ResultTypeNotMime(c, env);
    FixedPoint(r, env);
  }

  // ---------------------------------------------------------------------
  // Worked cases

  /**
   * A MIME type given as `type`, such as `{file: 'a.mp4', type: 'video/mp4'}`:
   * for a file that is neither YouTube nor RTMP, the result's type is the
   * captured subtype through the alias table, and `mimeType` is the MIME type.
   */
  lemma MimeTypeGiven(c: Record, env: Env, top: string, rest: string)
    requires WellTyped(c) && HasFile(c)
    requires top != [] && '/' !in top && rest != [] && '/' !in rest
    requires "type" in c && c["type"] == Str(top + "/" + rest)
    requires !env.isYouTube(TrimmedFile(c, env)) && !env.isRtmp(TrimmedFile(c, env))
    ensures var r := SourceOf(Some(c), env);
            && r.Some?
            && r.value["type"] == Str(Canonical(Capture(rest)))
            && r.value["mimeType"] == Str(top + "/" + rest)
  {
    MimeSubtypeOfSplit(top, rest);
    ResultType(c, env);
    MimeTypeField(c, env);
  }

  /** A YouTube file wins over an explicit type. */
  lemma YouTubeExample(env: Env)
    requires env.isYouTube(env.trim("https://youtu.be/xyz"))
    ensures var r := SourceOf(Some(map["file" := Str("https://youtu.be/xyz"), "type" := Str("mp4")]), env);
            r.Some? && r.value["type"] == Str("youtube")
  {
    TypePriority(map["file" := Str("https://youtu.be/xyz"), "type" := Str("mp4")], env);
  }

  /** An alias given as the explicit type: `smil` is `rtmp`. */
  lemma AliasExample(env: Env)
    requires !env.isYouTube(env.trim("a")) && !env.isRtmp(env.trim("a"))
    ensures var r := SourceOf(Some(map["file" := Str("a"), "type" := Str("smil")]), env);
            r.Some? && r.value["type"] == Str("rtmp")
  {
    var c := map["file" := Str("a"), "type" := Str("smil")];
    assert MimeStepType(ConfigType(c)) == "smil";
    TypePriority(c, env);
  }

  /** No type given: the extension decides. */
  lemma ExtensionExample(env: Env)
    requires !env.isYouTube(env.trim("movie.webm")) && !env.isRtmp(env.trim("movie.webm"))
    requires env.extension(env.trim("movie.webm")) == "webm"
    ensures var r := SourceOf(Some(map["file" := Str("movie.webm")]), env);
            r.Some? && r.value["type"] == Str("webm") && r.value["default"] == Bool(false)
  {
    var c := map["file" := Str("movie.webm")];
    assert ConfigType(c) == "";
    assert MimeStepType("") == "";
    TypePriority(c, env);
    DefaultField(c, env);
  }

  /** An HLS playlist extension given as the explicit type: `m3u8` is `hls`. */
  lemma HlsAliasExample(env: Env)
    requires !env.isYouTube(env.trim("a.m3u8")) && !env.isRtmp(env.trim("a.m3u8"))
    ensures var r := SourceOf(Some(map["file" := Str("a.m3u8"), "type" := Str("m3u8")]), env);
            r.Some? && r.value["type"] == Str("hls")
  {
    var c := map["file" := Str("a.m3u8"), "type" := Str("m3u8")];
    assert MimeStepType(ConfigType(c)) == "m3u8";
    TypePriority(c, env);
  }
}
