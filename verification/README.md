# QR-Generator: the UTM rewriter and the form handler

This project models the core of the QR-Generator web application (`app.py`)
in Dafny and proves properties of that model:

- `add_or_update_utm(url, utm_params)` parses a URL, reads its query into a
  dict of lists (`parse_qs`), and overwrites every key whose UTM value is
  non-empty with that single value. It then serialises the dict again
  (`urlencode(..., doseq=True)`) and reassembles the URL (`urlunparse`).
- The POST branch of `index()` strips the `data` field and refuses it when
  blank. When `enable_utm` is set, it rewrites the data with the five
  stripped UTM fields. It then encodes the text as a QR code and answers
  with `qr.png` or `qr.svg`, or refuses an unsupported format.

The parts of Python's `urllib.parse` that the rewriter relies on are modelled
as functions, following CPython 3.13's behaviour: `urlparse`, `urlunparse`,
`parse_qs`, `urlencode`, `quote_plus` and `unquote`. `urllib.parse`'s own
source is not part of this model.

Modules, one per file:

| file | module | models |
|---|---|---|
| `wrappers.dfy` | `Wrappers` | `Option` and `Result` |
| `text.dfy` | `Text` | `str.strip`, searching, `split`/`join`, ASCII lower-casing |
| `form_codec.dfy` | `FormCodec` | `quote_plus` over UTF-8, and `unquote_plus` with one replacement character per undecodable unit |
| `query_string.dfy` | `QueryString` | `parse_qsl`/`parse_qs` into an ordered dict of lists, and `urlencode(doseq=True)` |
| `url_parse.dfy` | `UrlParse` | `urlparse` (C0/space stripping, tab and newline removal, scheme, netloc, `;params`, query, fragment, the IPv6 bracket check) and `urlunparse` |
| `utm.dfy` | `Utm` | `add_or_update_utm`: its loop as a method, its result as the function `Rewrite` |
| `handler.dfy` | `Handler` | `index()` |

Some inputs are modelled as values:

- A Python dict is an ordered sequence: `QueryMap` is a sequence of entries with distinct keys, and `Overrides` is a sequence of pairs.
- The QR encoder, `segno.make(...).save(...)`, is the parameter `encode`, which maps a text and an image kind to bytes.
- The form is a map from each field to its first value.

## Model

| member | source | states |
|---|---|---|
| Text.Strip | app.py:119 | `.strip()` gives the empty string exactly when the field is all whitespace; otherwise the result neither starts nor ends with whitespace |
| Text.StripInfix | app.py:119 | the stripped text is a contiguous piece of the input, with only whitespace before and after it |
| Text.Split | app.py:105-113 | splitting at `&` gives at least one piece, no piece holds `&`, and joining the pieces with `&` gives the input back |
| Text.SplitJoin | app.py:105-113 | splitting a `&`-join of pieces without `&` gives the pieces back |
| FormCodec.QuotePlus | app.py:113 | `quote_plus` writes only letters, digits, `_.-~`, `+` and `%`, every `%` starts a complete `%XX` escape with upper-case hexadecimal digits, and it never shortens its input |
| FormCodec.UnquotePlus | app.py:105 | decoding gives the empty string exactly for the empty input |
| FormCodec.UnquotePlusQuotePlus | app.py:105-113 | decoding what `quote_plus` wrote, via UTF-8 bytes and `%XX` escapes, gives back every string |
| FormCodec.Utf8 | app.py:113 | the UTF-8 encoding of a character is 1 to 4 bytes, a single byte exactly for ASCII, and the later bytes are continuation bytes |
| QueryString.FieldPair | app.py:105 | one `&`-separated field gives at most one pair, never one with a blank value; `FieldPairOfEncoded` proves it reads back every pair `urlencode` writes |
| QueryString.ParseQsl | app.py:105 | `parse_qsl` gives at most one pair per `&`-separated field and drops blank values |
| QueryString.ParseQs | app.py:105 | `parse_qs` gives distinct keys, each with a non-empty list of non-empty values (blank values are dropped) |
| QueryString.UrlEncode | app.py:113 | `urlencode(query, doseq=True)`: one `name=value` field per value, in dict order and list order; its contracts are `UrlEncodeChars` and the round trip `ParseQsUrlEncode` |
| QueryString.UrlEncodeChars | app.py:113 | the serialised query holds only quoted characters, `=` and `&` |
| QueryString.ParseQsUrlEncode | app.py:105-113 | serialising a map `parse_qs` can produce and parsing it again gives the same map, including key order and value order |
| UrlParse.Parse | app.py:104 | `urlparse(url)`, or the `ValueError` for an unbalanced `[`/`]` netloc; its contracts are `ParseWellFormed` and `ParseUnparseParse` |
| UrlParse.Unparse | app.py:114 | `urlunparse(parts)`; its contract is `ParseUnparse`, which `Parse` reads back unchanged for every well-formed component tuple |
| UrlParse.ParseWellFormed | app.py:104 | every URL `urlparse` accepts gives components that `urlunparse` can write out faithfully |
| UrlParse.ParseUnparse | app.py:104-114 | `urlparse(urlunparse(c)) == c` for all such components |
| UrlParse.ParseUnparseParse | app.py:104-114 | reassembling a parsed URL and parsing it again gives the same components |
| Utm.Assign | app.py:110 | `query[key] = [value]` maps the key to exactly the new list and leaves every other key's lookup unchanged; an existing key keeps its place and a new key goes at the end |
| Utm.Step | app.py:109-110 | one pass of the loop body loses and moves no key, and adds at most the overridden key at the end |
| Utm.Apply | app.py:108-110 | the dict after the loop keeps the old keys in their places; `ApplyGet`, `ApplyOrder` and `ApplyIdempotent` state the rest |
| Utm.ApplyGet | app.py:108-110 | after the loop, a key's list is the single value of its last non-empty override, or the list it had when every override for it is empty |
| Utm.ApplyOrder | app.py:105-110 | after the loop, existing keys keep their positions, and new keys follow them in the order of their first non-empty override; every overridden key is present once |
| Utm.ApplyNoValues | app.py:108-110 | overrides whose values are all empty leave the dict unchanged |
| Utm.ApplyIdempotent | app.py:108-110 | running the loop twice with the same overrides gives what running it once gives |
| Utm.ApplyCanonical | app.py:105-110 | the loop keeps a dict `parse_qs` can produce in that form |
| Utm.Merge | app.py:107-110 | the loop that updates the dict in place computes `Apply` of the overrides |
| Utm.Rewrite | app.py:102-114 | `add_or_update_utm` fails exactly when `urlparse` does; `RewriteComponents`, `RewriteQuery` and `RewriteIdempotent` state what it returns |
| Utm.AddOrUpdateUtm | app.py:102-114 | its result is `Rewrite`: the `urlparse` error, or the URL reassembled around the serialised, merged query |
| Utm.RewriteComponents | app.py:104-114 | the rewritten URL parses back to the old scheme, netloc, path, params and fragment, with the serialised merged dict as its query |
| Utm.RewriteQuery | app.py:104-114 | the rewritten URL's query parses back to the old query's dict with the overrides applied |
| Utm.RewriteNoValues | app.py:102-114 | with all UTM values empty, the URL keeps every component, and its query parses to the same dict; only the query's spelling may change |
| Utm.RewriteIdempotent | app.py:102-114 | rewriting an already rewritten URL with the same overrides changes nothing |
| Utm.RewriteOverride | app.py:108-110 | for dict overrides (distinct keys), a key with a non-empty value ends up with exactly that value, and a key with an empty value keeps the values the URL had |
| Handler.UtmParams | app.py:128-134 | the `utm_params` dict holds the five UTM field names in order, each with the stripped form value, empty when the field is missing |
| Handler.Payload | app.py:119-135 | the text handed to the encoder fails to be computed exactly when `enable_utm` is set and `urlparse` rejects the stripped data |
| Handler.Index | app.py:118-150 | a refusal is always status 400; a download is always `qr.png`/`image/png` or `qr.svg`/`image/svg+xml`; only a GET shows the form |
| Handler.NoData | app.py:119-124 | a POST is refused with "Error: No data provided" exactly when the data field is missing or all whitespace |
| Handler.UnsupportedFormat | app.py:141-150 | a POST with data is refused with "Error: Unsupported format" exactly when the URL could be read and the format is neither `png` nor `svg` |
| Handler.Downloads | app.py:120-148 | `png` gives the encoded payload as `qr.png`, `svg` as `qr.svg`, and a missing format field counts as `png` |
| Handler.RewriteFailure | app.py:127-135 | with UTM enabled, a URL that `urlparse` rejects makes the request fail before the format is looked at |
| Handler.UtmIgnored | app.py:121-135 | without `enable_utm`, two forms that agree on the data and the format get the same answer, whatever their UTM fields hold |
| Handler.PlainDownload | app.py:119-148 | without `enable_utm`, a POST with data never fails on the URL, is a download exactly for `png` and `svg`, and the code holds the stripped data itself |
| Handler.UntaggedPayload | app.py:127-135 | with `enable_utm` and every UTM field blank or missing, the encoded URL keeps the submitted URL's components, and its query reads as the same dict |
| Handler.UtmParamsKeys | app.py:128-134 | the five UTM entries carry distinct keys (the field names), so each override is the only one for its key |
| Handler.UtmTagged | app.py:127-135 | for a readable URL, each UTM field that is not blank ends up in the rewritten query as its single value; a blank one leaves that key's values as the URL had them |

## Left out

- The GET branch renders an HTML template; the model only records that a GET shows the form (`FormPage`).
- Flask's routing, `request.form`'s multi-valued fields (the model keeps the first value of each field), and `app.run` are left out.
- The QR encoder (`segno.make`, `qr.save`, scale 8, border 4, error level M) is the opaque parameter `encode`. Its exceptions are not modelled (an over-long text fails in `segno`), and neither is the fact that `segno.make` runs before the format is checked.
- `io.BytesIO` and `send_file` are reduced to the `Download` value: file name, MIME type and bytes.
- The `ValueError` that `urlparse` raises escapes `index()`; Flask then answers 500. The model returns `ServerError`, and the only such error modelled is the unbalanced `[`/`]` in the netloc.
- UrlParse.Parse: it leaves out `urlsplit`'s other netloc validation (`_checknetloc` for NFKC-normalised characters, and the bracketed-host check of `_check_bracketed_netloc`). It also leaves out the `port` accessor, which `add_or_update_utm` does not use.
- UrlParse.Unparse: it follows CPython 3.13's `urlunsplit`, which also writes `//` before an empty netloc when the path starts with `//`, or when the scheme uses a netloc and the path is empty or starts with `/`; older versions of the library differ.
- FormCodec.UnquotePlus: it decodes invalid UTF-8 with one U+FFFD per undecodable byte. Python's `errors='replace'` can merge some invalid sequences into a single U+FFFD. `QuotePlus` never produces such input, so the round trip is unaffected.
- Characters are Dafny `char`s, which are Unicode scalar values. Python strings may also hold lone surrogates, which are not modelled.
- `parse_qs`'s `max_num_fields` and `separator` arguments keep their defaults (no limit, `&`), as `add_or_update_utm` uses them.
