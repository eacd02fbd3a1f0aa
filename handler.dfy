/**
 * The Lambda entry point (`lambda_handler`) and the two collaborators it calls,
 * `get_rss` and `upload_fileobj`, at their interfaces. The HTTP response, the
 * parsed channel and items, the S3 client's outcome and the wall-clock time are
 * inputs; the handler's effects are its return value and the upload calls it makes.
 */
module Handler {
  import opened Wrappers
  import opened Strings
  import opened Skills

  /** The four channel elements the handler reads, as text. */
  datatype Channel = Channel(title: string, link: string, description: string, pubDate: string)

  /** The parsed feed: its channel and each item's encoded content. */
  datatype Feed = Feed(channel: Channel, items: seq<string>)

  /** The HTTP response to the feed request: a status code and the parsed body. */
  datatype Response = Response(status: int, body: Feed)

  /** The dictionary that is serialised, compressed and uploaded. */
  datatype ContentRecord = ContentRecord(
    title: string, link: string, description: string, pubdate: string, skills: seq<string>)

  /**
   * The S3 key of an upload: the name given, or (when `object_name` is `None`)
   * the file object itself, which `upload_fileobj` passes on in place of a name.
   */
  datatype ObjectKey = Named(name: string) | FileObject

  /** One call to the S3 client: what is stored, in which bucket, under which key. */
  datatype UploadCall = UploadCall(content: ContentRecord, bucket: string, key: ObjectKey)

  /** A call made and the boolean `upload_fileobj` returned for it. */
  datatype Upload = Upload(call: UploadCall, ok: bool)

  const Prefix: string := "upwork_skills_"
  const Suffix: string := ".json.gz"

  /** `get_rss`: the parsed document on status 200, `False` (here `None`) otherwise. */
  function GetRss(response: Response): (r: Option<Feed>)
    ensures r.Some? <==> response.status == 200
    ensures r.Some? ==> r.value == response.body
  {
    if response.status == 200 then Some(response.body) else None
  }

  /**
   * `upload_fileobj`: one call to the S3 client; `True` unless the client raised
   * `ClientError`, which `clientError` stands for.
   */
  function UploadFileobj(content: ContentRecord, bucket: string, objectName: Option<string>,
                         clientError: bool): (r: Upload)
    ensures r.ok <==> !clientError
    ensures r.call.content == content && r.call.bucket == bucket
    ensures objectName.Some? ==> r.call.key == Named(objectName.value)
    ensures objectName.None? ==> r.call.key == FileObject
  {
    var key := match objectName
      case Some(name) => Named(name)
      case None => FileObject;
    Upload(UploadCall(content, bucket, key), !clientError)
  }

  /**
   * The archive's name: the prefix, the timestamp with every space made `_`,
   * and the suffix. It contains no space.
   */
  function ObjectName(now: string): (r: string)
    ensures |r| == |Prefix| + |now| + |Suffix|
    ensures r[..|Prefix|] == Prefix && r[|r| - |Suffix|..] == Suffix
    ensures forall i :: 0 <= i < |now| ==>
              r[|Prefix| + i] == if now[i] == ' ' then '_' else now[i]
    ensures ' ' !in r
  {
    var r := Prefix + Replace(now, ' ', '_') + Suffix;
    assert r[..|Prefix|] == Prefix;
    assert r[|r| - |Suffix|..] == Suffix;
    assert forall i :: 0 <= i < |r| ==> r[i] != ' ' by {
      forall i | 0 <= i < |r| ensures r[i] != ' ' {
        if i < |Prefix| {
          assert r[i] == Prefix[i];
        } else if i >= |r| - |Suffix| {
          assert r[i] == Suffix[i - (|r| - |Suffix|)];
        }
      }
    }
    r
  }

  /**
   * Timestamps without `_` (as `str(datetime)` writes them) get distinct names:
   * replacing spaces loses nothing.
   */
  lemma ObjectNameInjective(a: string, b: string)
    requires '_' !in a && '_' !in b
    requires ObjectName(a) == ObjectName(b)
    ensures a == b
  {
    assert |a| == |b|;
    forall i | 0 <= i < |a| ensures a[i] == b[i] {
      assert ObjectName(a)[|Prefix| + i] == ObjectName(b)[|Prefix| + i];
      assert a[i] in a && b[i] in b;
    }
  }

  /**
   * `lambda_handler`. On a failed fetch it returns false and uploads nothing.
   * Otherwise it builds the record from the channel and the extracted skills,
   * uploads it once under `ObjectName(now)` to `bucket`, and returns true whatever
   * the upload returned. `uploads` lists the upload calls made, with their results.
   */
  method LambdaHandler(response: Response, bucket: string, now: string, clientError: bool)
    returns (ok: bool, uploads: seq<Upload>)
    ensures ok <==> response.status == 200
    ensures !ok ==> uploads == []
    ensures ok ==> |uploads| == 1
    ensures ok ==> var channel := response.body.channel;
                   uploads[0].call == UploadCall(
                     ContentRecord(channel.title, channel.link, channel.description, channel.pubDate,
                                   Extract(response.body.items)),
                     bucket, Named(ObjectName(now)))
    ensures ok ==> (uploads[0].ok <==> !clientError)
  {
    var jobs := GetRss(response);
    if jobs.Some? {
      var channel := jobs.value.channel;
      var title := channel.title;
      var link := channel.link;
      var description := channel.description;
      var pubdate := channel.pubDate;
      var retrievedSkill := GetSkills(jobs.value.items);
      var content := ContentRecord(title, link, description, pubdate, retrievedSkill);
      var currentTime := Replace(now, ' ', '_');
      var objectName := Prefix + currentTime + Suffix;
      var upload := UploadFileobj(content, bucket, Some(objectName), clientError);
      uploads := [upload];
      ok := true;
    } else {
      uploads := [];
      ok := false;
    }
  }
}
