# Upwork skills insight — a verified model of the scraping Lambda

The system is an AWS Lambda function. It fetches Upwork's job RSS feed and,
for every job item, reads the skill list from the item's encoded HTML content.
It collects all skills into one flat list and stores a compressed JSON
record of the channel metadata plus that list in an S3 bucket. The name of
the stored object carries the current UTC time.

This project models the Lambda's core in Dafny and proves what it does:

- `Skills` models the skill extractor `get_skills`. `GetSkills` is an
  imperative method with the source's two nested loops, proved equal to the
  specification function `Extract`. The inner loop is split out as
  `AppendEntries`.
- `Handler` models the entry point `lambda_handler`. `get_rss` and
  `upload_fileobj` are modelled at their interfaces. The HTTP response, the
  S3 client's outcome and the clock are inputs.
- `Strings` models the Python `str` operations the code relies on, with
  their contracts:
  - `split(sep, 1)`;
  - `split(c)`, with its join round trip;
  - `strip()`, over the full set of Unicode white-space characters that
    Python's `str.isspace` accepts;
  - `replace`.
- `Percent` models `urllib.parse.unquote`. A reference encoder goes with it,
  and the model proves that decoding undoes it.
- `Seqs` holds an order-preserving `Map` over sequences.
- `Wrappers` holds `Option`.

An item's "encoded content" is modelled as a string. The feed is modelled as
its channel's four text fields and the list of item contents, in document
order.

## Model

| member | source | states |
|---|---|---|
| Skills.GetSkills | lambda_function.py:43-81 | The list the nested loops build is exactly `Extract(items)`: every item's entries, concatenated in item order. It has no precondition, so it never fails. |
| Skills.AppendEntries | lambda_function.py:77-79 | The inner loop appends `unquote(token).strip()` for every token, in token order, after the entries already collected. |
| Skills.SkillsSegment | lambda_function.py:53-60 | The item has no segment (the `IndexError` skip) exactly when the marker `Skills</b>:` does not occur in its content. |
| Skills.KeptSegment | lambda_function.py:60 | Without `<br />` the whole remainder is kept. Otherwise the kept part ends at the FIRST `<br />`, and the remainder is that part, the break and the rest. |
| Skills.Tokens | lambda_function.py:69 | A segment yields one entry more than it has commas. |
| Skills.TokensTrimmed | lambda_function.py:77-79 | No entry of a segment has white space at either end. |
| Skills.ItemSkills | lambda_function.py:53-57 | An item whose content lacks the marker contributes nothing. |
| Skills.ItemEntries | lambda_function.py:68-79 | An item with the marker contributes exactly commas+1 entries, empty ones included. Entry k is `strip(unquote(token k))`. |
| Skills.Clean | lambda_function.py:78-79 | An entry never has leading or trailing white space. A token without `%` is only stripped. |
| Skills.ExtractAppend | lambda_function.py:49-50 | The result for a concatenation of item lists is the concatenation of their results, in order. |
| Skills.SkippedItem | lambda_function.py:53-57 | An item without the marker adds nothing, and extraction carries on with the items after it. |
| Skills.FirstMarkerOnly | lambda_function.py:54 | Only the first marker counts. Later markers are ordinary text of the segment, and the segment is cut at the first `<br />` after the first marker. |
| Skills.TrailingComma | lambda_function.py:69 | A trailing comma adds one empty entry at the end and leaves the other entries as they were. |
| Skills.CleanEncoded | lambda_function.py:78-79 | A trimmed skill of single-byte characters, fully percent-encoded, cleans back to itself. |
| Skills.ExtractTrimmed | lambda_function.py:79 | No entry of the whole result has leading or trailing white space. |
| Skills.NoMarkerNoSkills | lambda_function.py:53-57 | A feed in which no item has the marker gives the empty list. |
| Strings.Find | lambda_function.py:54 | The index returned is the leftmost occurrence. The result is none exactly when the pattern does not occur. |
| Strings.SplitOnce | lambda_function.py:54 | `split(sep, 1)` gives one piece, the input itself, exactly when `sep` is absent. Otherwise it gives two pieces around the FIRST occurrence, which rejoin to the input. |
| Strings.Split | lambda_function.py:69 | `split(c)` gives commas+1 pieces. No piece contains `c`, and joining the pieces with `c` gives back the input. |
| Strings.SplitJoin | lambda_function.py:69 | Splitting a join of pieces that do not contain `c` gives back those pieces. |
| Strings.SplitTrailing | lambda_function.py:69 | A trailing separator adds exactly one empty last piece. |
| Strings.LStrip | lambda_function.py:79 | What is removed from the front is white space only, and the result does not start with white space. |
| Strings.RStrip | lambda_function.py:79 | What is removed from the back is white space only, and the result does not end with white space. |
| Strings.Strip | lambda_function.py:79 | The result is trimmed and no longer than the input. |
| Strings.StripSurrounded | lambda_function.py:79 | Stripping removes exactly the white space around a trimmed text. |
| Strings.StripIdempotent | lambda_function.py:79 | Stripping twice is stripping once. |
| Strings.Replace | lambda_function.py:129 | Same length. Each occurrence of `a` becomes `b`, and every other character is kept in place. |
| Percent.Unquote | lambda_function.py:78 | Decoding never lengthens the text. Text without `%` is unchanged, and a `%` in the output comes from a `%` in the input. |
| Percent.UnquoteEncode | lambda_function.py:78 | `unquote` undoes percent-encoding for every text of single-byte characters. |
| Handler.GetRss | lambda_function.py:24-40 | It gives the parsed document exactly when the status is 200, and false otherwise. |
| Handler.UploadFileobj | lambda_function.py:84-104 | The upload is reported successful exactly when the client raised no `ClientError`. The key is the given name, or the file object when no name is given. |
| Handler.ObjectName | lambda_function.py:129-130 | The name is `upwork_skills_`, then the time with every space turned into `_`, then `.json.gz`. It contains no space. |
| Handler.ObjectNameInjective | lambda_function.py:129-130 | Two timestamps without `_` that give the same object name are equal. |
| Handler.LambdaHandler | lambda_function.py:107-136 | On a non-200 fetch it returns false and uploads nothing. Otherwise it makes exactly one upload and returns true whatever the upload returned. That upload holds the channel's title, link, description and pubDate plus `Extract(items)`, goes to the bucket, and is named `ObjectName(now)`. |

## Left out

- The HTTP request in `get_rss` is not modelled: its response is an input. So are redirects and the request parameters.
- BeautifulSoup/lxml parsing is not modelled. The feed is given as the channel's four text fields and the items' encoded content. A feed that lacks one of those elements makes the source raise `AttributeError`, and the model does not represent that crash.
- The truthiness test `if jobs:` is modelled as "the fetch succeeded". A parsed document is always truthy, so only the `False` from `get_rss` takes the else branch.
- The `AttributeError` and `TypeError` handlers at lambda_function.py:61-66 and 70-75 are not modelled. Their operand is always a `str`, so they cannot fire.
- Logging and the environment variables (the feed URL, the bucket, the AWS keys and region) are not modelled. The bucket is a parameter.
- JSON serialisation, gzip compression and the `BytesIO` wrapper are not modelled. The upload carries the content record itself, so the model does not show that decompressing and parsing the stored object gives that record back.
- The boto3 S3 client is not modelled. Whether it raises `ClientError` is the input `clientError`, and other exceptions from it are not modelled.
- `datetime.now(timezone.utc)` and its `str` format are not modelled. The timestamp text is the input `now`.
- Percent.Unquote: an escape of a byte 0x80 or above becomes the character with that code. Python instead collects consecutive escaped bytes and decodes them as UTF-8, replacing invalid sequences. The model is exact only for escapes of ASCII bytes.
- Percent.PercentEncode is a reference encoder for the round trip. It is not Python's `quote`: it also escapes `/` and needs single-byte characters.
- Strings.SplitOnce: Python raises `ValueError` on an empty separator. The model requires a non-empty one, and both separators the code uses are non-empty.
- Strings.Strip models Python's `strip()` with no argument only. White space is the fixed set of code points for which `str.isspace` is true.
