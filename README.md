# Playlist source normaliser, in Dafny

This project models `Source`, the function of the JW Player web player that
normalises one media source of a playlist item (`src/js/playlist/source.ts`).
A source is a loosely typed record: a `file` URL plus optional hints such as
`type`, `default`, `label`, DRM settings and dimensions. `Source` either
rejects it (returns nothing) or returns a canonical record:

1. no record, or no truthy `file`: rejected;
2. `default: false` and `type: ''` are merged under the record's own fields;
3. `file` is trimmed;
4. a `type` that matches `^[^/]+/(?:x-)?([^/]+)$` is kept whole in `mimeType`,
   and `type` becomes the captured subtype;
5. the type is classified: a YouTube file gives `youtube`, else an RTMP file
   gives `rtmp`, else an empty type is taken from the file's extension;
6. still no type: rejected;
7. aliases are mapped: `m3u8` and `vnd.apple.mpegurl` to `hls`, `dash+xml` to
   `dash`, `m4a` to `aac`, `smil` to `rtmp`;
8. every field whose value is exactly `''` is deleted.

Files:

- `wrappers.dfy` — module `Wrappers`: the `Option` result type.
- `mime.dfy` — module `Mime`: the MIME pattern as an explicit split on the one
  slash (`MimeSubtype`), with a reference reading of "matches" (exactly one
  slash, at neither end) and the capture rule for the optional `x-` group.
- `source.dfy` — module `PlaylistSource`: the record (`map<string, Value>`),
  one function per step, the whole normaliser as a function `SourceOf`, the
  normaliser as `source.ts` writes it — a method `Source` that updates one
  working record in place and deletes the empty fields in a loop over its
  keys — proved equal to `SourceOf`, and the lemmas about the result.

The four collaborators `isYouTube`, `isRtmp` (from `utils/validator`) and
`trim`, `extension` (from `utils/strings`) are not part of this model. They
are fields of the parameter `Env`, arbitrary pure functions; no lemma assumes
anything about them except the hypotheses it states.

The result's `type` is not confined to a fixed set of names: every type
outside the alias table passes through unchanged (`Canonical`). Normalising a
result again gives the same result provided that the trimmer keeps a trimmed
file as it is, the file's extension has no slash and the file was kept
(`SourceIdempotent` states these as sufficient hypotheses).

## Model

| member | source | states |
|---|---|---|
| `Mime.MimeSubtype` | src/js/playlist/source.ts:53-59 | a captured subtype is non-empty and has no slash; a type with no slash never matches |
| `Mime.Capture` | src/js/playlist/source.ts:53 | the capture is the text after the slash, or that text less a leading `x-`; the `x-` is dropped whenever something follows it; it is never empty and has no slash |
| `Mime.CaptureIsGreedy` | src/js/playlist/source.ts:53 | of the two readings of the text after the slash (with or without `x-`), the capture is the shorter non-empty one: the optional group is greedy |
| `Mime.MimeSubtypeMatchesShape` | src/js/playlist/source.ts:53-56 | a type matches the pattern exactly when it has one slash, at neither end |
| `Mime.MimeSubtypeOfSplit` | src/js/playlist/source.ts:53-59 | every `top/rest` with both parts non-empty and slash-free matches, capturing `rest` with a leading `x-` dropped when something follows it |
| `Mime.MimeSubtypePlain` | src/js/playlist/source.ts:53 | `video/mp4` captures `mp4` |
| `Mime.MimeSubtypeDropsX` | src/js/playlist/source.ts:53 | `video/x-flv` captures `flv` |
| `Mime.MimeSubtypeKeepsBareX` | src/js/playlist/source.ts:53 | `video/x-` captures `x-`: the optional group backtracks |
| `Mime.MimeSubtypeRejects` | src/js/playlist/source.ts:53 | `/mp4`, `video/` and `a/b/c` do not match |
| `PlaylistSource.HasFile` | src/js/playlist/source.ts:40 | for a string `file`, truthiness is non-emptiness |
| `PlaylistSource.MimeStepType` | src/js/playlist/source.ts:55-60 | the type left by the MIME step is the capture on a match and the original otherwise; it is empty exactly when the original is, and keeps a slash only when unchanged |
| `PlaylistSource.Classify` | src/js/playlist/source.ts:63-69 | YouTube gives `youtube`, else RTMP gives `rtmp`, else a non-empty type is kept, else the file's extension is the type; the result is empty exactly when none of these applies and the extension is empty |
| `PlaylistSource.WithDefaults` | src/js/playlist/source.ts:44-47 | the working record has the record's keys plus `default` and `type`; every given field wins; `default` is `false` and `type` is `''` when not given |
| `PlaylistSource.SplitMime` | src/js/playlist/source.ts:52-60 | on a match `mimeType` holds the original type and `type` the capture; without a match the record is unchanged; other fields are untouched |
| `PlaylistSource.Canonical` | src/js/playlist/source.ts:75-94 | the output is the table entry (`m3u8` and `vnd.apple.mpegurl` to `hls`, `dash+xml` to `dash`, `m4a` to `aac`, `smil` to `rtmp`) for an alias and the input otherwise; no output is an alias; the output is empty exactly when the input is |
| `PlaylistSource.StripEmpty` | src/js/playlist/source.ts:96-101 | a field survives exactly when its value is not `''`, and keeps its value |
| `PlaylistSource.SourceOf` | src/js/playlist/source.ts:38-104 | a result comes only from a record with a truthy file, and is a valid source: a non-empty `type`, a `default`, no field equal to `''` |
| `PlaylistSource.Source` | src/js/playlist/source.ts:38-104 | the in-place normaliser returns exactly `SourceOf` of its input |
| `PlaylistSource.RemoveEmptyStrings` | src/js/playlist/source.ts:96-101 | the loop over the keys deleting `''` fields leaves exactly `StripEmpty` of the record |
| `PlaylistSource.RejectsWithoutFile` | src/js/playlist/source.ts:39-42 | no record, or a missing or empty `file`, gives no result |
| `PlaylistSource.AcceptedIffTypeFound` | src/js/playlist/source.ts:62-73 | a record with a file gives a result exactly when it is YouTube, RTMP, has a type after the MIME step, or has an extension |
| `PlaylistSource.ResultType` | src/js/playlist/source.ts:62-94 | a result exists exactly when classification gives a non-empty type, and its `type` is that type through the alias table |
| `PlaylistSource.TypePriority` | src/js/playlist/source.ts:62-69 | YouTube gives `youtube` whatever the type; else RTMP gives `rtmp`; else an explicit or MIME-derived type is kept; else the extension is used |
| `PlaylistSource.DefaultField` | src/js/playlist/source.ts:44-47 | the result's `default` is the record's own, or `false` |
| `PlaylistSource.FileField` | src/js/playlist/source.ts:49-50 | the result's `file` is the trimmed file, and is absent exactly when trimming leaves `''` (a whitespace-only file) |
| `PlaylistSource.MimeTypeField` | src/js/playlist/source.ts:52-60 | on a match `mimeType` is the original type; otherwise it is the record's own `mimeType`, absent when that was missing or `''` |
| `PlaylistSource.PassThrough` | src/js/playlist/source.ts:44-47 | every other field is copied unchanged, and is absent exactly when it was missing or `''`, so `false` and `0` are kept |
| `PlaylistSource.CanonicalIdempotent` | src/js/playlist/source.ts:76-94 | applying the alias table twice is applying it once |
| `PlaylistSource.FixedPoint` | src/js/playlist/source.ts:38-104 | a valid source whose file trims to itself, whose type is no MIME type and is reproduced by classification and the alias table, is returned unchanged |
| `PlaylistSource.SourceIdempotent` | src/js/playlist/source.ts:38-104 | normalising a result again gives the same result, provided that the trimmer keeps its file, its extension has no slash and its file was kept |
| `PlaylistSource.MimeTypeGiven` | src/js/playlist/source.ts:53-69 | a MIME type such as `video/mp4` on a file that is neither YouTube nor RTMP gives `type` = the capture through the alias table and `mimeType` = the MIME type |
| `PlaylistSource.YouTubeExample` | src/js/playlist/source.ts:63-64 | a YouTube file with `type: 'mp4'` gives type `youtube` |
| `PlaylistSource.AliasExample` | src/js/playlist/source.ts:89-90 | `type: 'smil'` gives type `rtmp` |
| `PlaylistSource.HlsAliasExample` | src/js/playlist/source.ts:77-79 | `type: 'm3u8'` gives type `hls` |
| `PlaylistSource.ExtensionExample` | src/js/playlist/source.ts:67-68 | no type and extension `webm` gives type `webm` and `default` `false` |

## Left out

- The bodies of `isYouTube`, `isRtmp`, `trim` and `extension`: `utils/validator` and `utils/strings` are not part of this model; the four are parameters (`Env`).
- JavaScript string coercion of `file` (`'' + source.file`) and loose truthiness of non-string values: `WellTyped` requires `file`, `type` and `mimeType` to be strings and `default` a boolean, as the declared type of the config says.
- Keys present with the value `undefined` (which `Object.assign` copies): a field is either present with a value or absent.
- The meaning of the pass-through fields (DRM configuration, XHR callback, media types, numbers, flags): they are `Num` or `Opaque` values, only copied. Numbers are integers here; no field is read as a number.
- The order of `Object.keys`: the cleanup deletes the same fields in any order, and the loop picks keys in an unspecified order.
- A general regular-expression engine: only the one MIME pattern is modelled, as a split on its slash.
- SourceIdempotent: its three hypotheses are sufficient, not necessary, and `source.ts` promises none of them. Without each one, idempotence can fail. A whitespace-only file is dropped, so a second pass rejects the result. A trimmer that is not idempotent changes `file` again. An extension that contains a slash and is used as the type is split by the MIME step on the second pass.
