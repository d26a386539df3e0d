/**
 * The web front end's naming scheme: an upload is stored as
 * `<stem>_<timestamp>_<uid>` in the uploads folder, found again by its uid,
 * and read back by splitting the name at `_`. The clock, the random uid and
 * the file system are parameters.
 */
module WebApi {
  import opened Wrappers
  import opened PyStr
  import opened PyInt
  import opened PyPath
  import opened Service

  const UploadFolder := "uploads"

  /** `get_filename`: the name without its last extension. */
  function GetFilename(filename: string): (stem: string)
    ensures stem + Splitext(filename).1 == filename
  {
    Splitext(filename).0
  }

  /** The stored name written at upload: stem, timestamp and uid joined by `_`. */
  function UploadName(stem: string, timestamp: string, uid: string): string {
    stem + "_" + timestamp + "_" + uid
  }

  /** A lower-case hexadecimal digit. */
  predicate IsHexLower(c: char) {
    ('0' <= c <= '9') || ('a' <= c <= 'f')
  }

  /** The positions of the four hyphens in the canonical 8-4-4-4-12 form. */
  predicate IsHyphenPosition(i: int) {
    i == 8 || i == 13 || i == 18 || i == 23
  }

  /** `str(uuid.uuid4())`: the canonical textual form of section 3 of
      RFC 4122, in lower case, with version 4 and the RFC 4122 variant of
      section 4.4. */
  predicate IsCanonicalUuid(s: string) {
    && |s| == 36
    && (forall i :: 0 <= i < |s| ==> if IsHyphenPosition(i) then s[i] == '-' else IsHexLower(s[i]))
    && s[14] == '4'
    && (s[19] == '8' || s[19] == '9' || s[19] == 'a' || s[19] == 'b')
  }

  /** A canonical uuid has neither `_` nor `/` in it, so it can be the last
      `_`-separated field of a file name. */
  lemma CanonicalUuidHasNoSeparator(s: string)
    requires IsCanonicalUuid(s)
    ensures '_' !in s && '/' !in s
  {
    forall i | 0 <= i < |s| ensures s[i] != '_' && s[i] != '/' {
      if !IsHyphenPosition(i) {
        assert IsHexLower(s[i]);
      }
    }
  }

  /** The body of a reply to the upload endpoint. */
  datatype UploadReply = UploadReply(code: int, body: seq<(string, string)>, savedAs: Option<string>)

  /** `upload`: refuse a request without a file part with 400; otherwise
      store the file under the composed name and answer with its uid. */
  function UploadEndpoint(file: Option<string>, uid: string, timestamp: string): (r: UploadReply)
    ensures r.code == 400 <==> file.None?
    ensures file.None? ==> r.body == [("error", "No file provided.")] && r.savedAs.None?
    ensures file.Some? ==> r.body == [("uid", uid)]
    ensures file.Some? ==> r.savedAs == Some(JoinPath(UploadFolder, UploadName(GetFilename(file.value), timestamp, uid)))
  {
    match file
    case None => UploadReply(400, [("error", "No file provided.")], None)
    case Some(name) =>
      UploadReply(200, [("uid", uid)], Some(JoinPath(UploadFolder, UploadName(GetFilename(name), timestamp, uid))))
  }

  /** What `get_file_details` returns: the stem, the timestamp and the
      explanation file name, if any. */
  datatype Details = Details(filename: string, timestamp: int, explanation: Option<string>)

  /** `get_file_details`: split the base name at `_`; everything before the
      last two fields is the stem, the second-to-last field must be an
      integer, and a done upload names its explanation file after the stem.
      Fewer than two fields is an `IndexError`, a non-integer field a
      `ValueError`. */
  function GetFileDetails(filePath: string, fileStatus: string): (r: Outcome<Details>)
    ensures r == Raised(IndexError) <==> '_' !in Basename(filePath)
    ensures r.Raised? ==> r.error == IndexError || r.error == ValueError
    ensures r.Returned? ==> (r.value.explanation.Some? <==> fileStatus == "done")
    ensures r.Returned? && fileStatus == "done" ==>
      r.value.explanation == Some(r.value.filename + "_output.json")
  {
    var parts := Split(Basename(filePath), '_');
    assert |parts| < 2 <==> '_' !in Basename(filePath) by {
      if |parts| < 2 {
        assert Basename(filePath) == Join('_', parts) == parts[0];
      } else {
        SplitJoinHasSep(parts);
      }
    }
    if |parts| < 2 then Raised(IndexError)
    else
      var filename := Join('_', parts[..|parts| - 2]);
      match ParseInt(parts[|parts| - 2])
      case None => Raised(ValueError)
      case Some(timestamp) =>
        Returned(Details(filename, timestamp, if fileStatus == "done" then Some(filename + "_output.json") else None))
  }

  /** Joining two or more parts puts the separator in the result. */
  lemma SplitJoinHasSep(parts: seq<string>)
    requires |parts| >= 2
    ensures '_' in Join('_', parts)
  {
    assert Join('_', parts) == parts[0] + "_" + Join('_', parts[1..]);
    assert Join('_', parts)[|parts[0]|] == '_';
  }

  /** A stored name splits into the stem's own fields, the timestamp and the
      uid when neither of the last two holds a `_`. */
  lemma SplitUploadName(stem: string, timestamp: string, uid: string)
    requires '_' !in timestamp && '_' !in uid
    ensures Split(UploadName(stem, timestamp, uid), '_') == Split(stem, '_') + [timestamp, uid]
  {
    SplitAround(stem, '_', timestamp);
    SplitNoSep(timestamp, '_');
    assert stem + "_" + timestamp == stem + ['_'] + timestamp;
    SplitAround(stem + "_" + timestamp, '_', uid);
    SplitNoSep(uid, '_');
    assert UploadName(stem, timestamp, uid) == (stem + "_" + timestamp) + ['_'] + uid;
  }

  /** Reading a stored name back: the stem comes back whole, even when it has
      `_` in it, and the timestamp field is parsed with `int()`. */
  lemma {:induction false} DetailsOfUploadName(stem: string, timestamp: string, uid: string, fileStatus: string)
    requires '_' !in timestamp && '_' !in uid
    requires '/' !in stem && '/' !in timestamp && '/' !in uid
    ensures var r := GetFileDetails(JoinPath(UploadFolder, UploadName(stem, timestamp, uid)), fileStatus);
      && (r.Raised? <==> ParseInt(timestamp).None?)
      && (r.Raised? ==> r.error == ValueError)
      && (r.Returned? ==> r.value.filename == stem && Some(r.value.timestamp) == ParseInt(timestamp))
  {
    var name := UploadName(stem, timestamp, uid);
    assert '/' !in name by {
      assert forall i :: 0 <= i < |name| ==>
        name[i] in stem || name[i] == '_' || name[i] in timestamp || name[i] in uid by {
        forall i | 0 <= i < |name| ensures name[i] in stem || name[i] == '_' || name[i] in timestamp || name[i] in uid {
          if i < |stem| { assert name[i] == stem[i]; }
          else if i == |stem| {}
          else if i < |stem| + 1 + |timestamp| { assert name[i] == timestamp[i - |stem| - 1]; }
          else if i == |stem| + 1 + |timestamp| {}
          else { assert name[i] == uid[i - |stem| - 2 - |timestamp|]; }
        }
      }
    }
    BasenameOfJoin(UploadFolder, name);
    SplitUploadName(stem, timestamp, uid);
    var parts := Split(name, '_');
    assert parts[..|parts| - 2] == Split(stem, '_');
    assert parts[|parts| - 2] == timestamp;
  }

  /** A wall-clock time as `datetime.now()` gives it. */
  datatype DateTime = DateTime(year: nat, month: nat, day: nat, hour: nat, minute: nat, second: nat)

  predicate ValidDateTime(t: DateTime) {
    1 <= t.year <= 9999 && 1 <= t.month <= 12 && 1 <= t.day <= 31 && t.hour < 24 && t.minute < 60 && t.second < 62
  }

  /** A two-digit zero-padded field. */
  function Pad2(n: nat): (s: string)
    requires n < 100
    ensures |s| == 2 && AllDigits(s)
    ensures DigitValue(s[0]) * 10 + DigitValue(s[1]) == n
  {
    [DigitChar(n / 10), DigitChar(n % 10)]
  }

  /** `strftime('%Y-%m-%d-%H-%M-%S')`, the timestamp the upload endpoint
      writes into the stored name. */
  function StrftimeStamp(t: DateTime): (s: string)
    requires ValidDateTime(t)
    ensures '_' !in s && '/' !in s
    ensures |s| >= 2 && IsDigit(s[0]) && IsDigit(s[|s| - 1])
    ensures '-' in s[1..]
  {
    var y := NatToString(t.year);
    var s := y + "-" + Pad2(t.month) + "-" + Pad2(t.day) + "-" + Pad2(t.hour) + "-" + Pad2(t.minute) + "-" + Pad2(t.second);
    assert s[1..][|y| - 1] == '-';
    assert forall i :: 0 <= i < |s| ==> IsDigit(s[i]) || s[i] == '-';
    s
  }

  /** `int()` rejects the strftime stamp: it has a `-` after its first digit. */
  lemma StrftimeStampNotInt(t: DateTime)
    requires ValidDateTime(t)
    ensures ParseInt(StrftimeStamp(t)) == None
  {
    var s := StrftimeStamp(t);
    StripStripped(s);
  }

  /** Every status query for an upload stored as written fails with
      `ValueError`: the stamp in its name is never an integer. */
  lemma UploadDetailsAsWritten(name: string, t: DateTime, uid: string, fileStatus: string)
    requires ValidDateTime(t) && IsCanonicalUuid(uid) && '/' !in name
    ensures GetFileDetails(UploadEndpoint(Some(name), uid, StrftimeStamp(t)).savedAs.value, fileStatus)
            == Raised(ValueError)
  {
    CanonicalUuidHasNoSeparator(uid);
    StrftimeStampNotInt(t);
    var stem := GetFilename(name);
    assert '/' !in stem by {
      forall i | 0 <= i < |stem| ensures stem[i] != '/' {
        assert stem[i] == name[i] by {
          assert name == stem + Splitext(name).1;
        }
      }
    }
    DetailsOfUploadName(stem, StrftimeStamp(t), uid, fileStatus);
  }

  /** The timestamp the upload endpoint's comment names instead,
      `int(time.time())`: whole seconds since the epoch, in decimal. */
  function EpochStamp(seconds: nat): (s: string)
    ensures '_' !in s && '/' !in s
    ensures ParseInt(s) == Some(seconds)
  {
    ParseIntRoundTrip(seconds);
    NatToString(seconds)
  }

  /** With the epoch stamp the stored name reads back: the stem and the
      upload time both come back. */
  lemma UploadDetailsRoundTrip(name: string, seconds: nat, uid: string, fileStatus: string)
    requires IsCanonicalUuid(uid) && '/' !in name
    ensures var stem := GetFilename(name);
      GetFileDetails(UploadEndpoint(Some(name), uid, EpochStamp(seconds)).savedAs.value, fileStatus)
      == Returned(Details(stem, seconds, if fileStatus == "done" then Some(stem + "_output.json") else None))
  {
    CanonicalUuidHasNoSeparator(uid);
    var stem := GetFilename(name);
    assert '/' !in stem by {
      forall i | 0 <= i < |stem| ensures stem[i] != '/' {
        assert stem[i] == name[i] by {
          assert name == stem + Splitext(name).1;
        }
      }
    }
    DetailsOfUploadName(stem, EpochStamp(seconds), uid, fileStatus);
  }

  /** The position of the first listed name that contains `uid`, or the
      length of the listing when none does. */
  function FirstContaining(listing: seq<string>, uid: string): (i: nat)
    ensures i <= |listing|
    ensures forall j :: 0 <= j < i ==> !Contains(listing[j], uid)
    ensures i < |listing| ==> Contains(listing[i], uid)
  {
    if |listing| == 0 then 0
    else if Contains(listing[0], uid) then 0
    else
      var i := FirstContaining(listing[1..], uid);
      assert forall j :: 0 < j <= i ==> listing[j] == listing[1..][j - 1];
      1 + i
  }

  /** `find_file_by_uid`: the uploads folder joined with the first listed
      name that has the uid as a substring, or `None`. */
  function FindFileByUid(listing: seq<string>, uid: string): (r: Option<string>)
    ensures r.None? <==> forall j :: 0 <= j < |listing| ==> !Contains(listing[j], uid)
    ensures r.Some? ==>
      exists i :: (0 <= i < |listing| && Contains(listing[i], uid) && r.value == JoinPath(UploadFolder, listing[i])
                   && (forall j :: 0 <= j < i ==> !Contains(listing[j], uid)))
  {
    var i := FirstContaining(listing, uid);
    if i < |listing| then Some(JoinPath(UploadFolder, listing[i])) else None
  }

  /** A stored name contains its uid. */
  lemma UploadNameContainsUid(stem: string, timestamp: string, uid: string)
    ensures Contains(UploadName(stem, timestamp, uid), uid)
  {
    var name := UploadName(stem, timestamp, uid);
    var at := |stem| + 1 + |timestamp| + 1;
    assert name[at..] == uid;
    assert OccursAt(name, uid, at);
    ContainsIff(name, uid);
  }

  /** The upload's own stored name is found when no earlier listed name
      contains its uid. */
  lemma FindsStoredUpload(listing: seq<string>, i: nat, stem: string, timestamp: string, uid: string)
    requires i < |listing| && listing[i] == UploadName(stem, timestamp, uid)
    requires forall j :: 0 <= j < i ==> !Contains(listing[j], uid)
    ensures FindFileByUid(listing, uid) == Some(JoinPath(UploadFolder, listing[i]))
  {
    UploadNameContainsUid(stem, timestamp, uid);
  }

  /** `get_status`: `'done'` when the upload's output file is found, else
      `'pending'`. Whether it is found is given as a predicate on the upload's
      path. */
  function GetStatus(filePath: string, outputFound: string -> bool): (s: string)
    ensures s == "done" || s == "pending"
    ensures s == "done" <==> outputFound(filePath)
  {
    if outputFound(filePath) then "done" else "pending"
  }

  /** The timestamp field of a status reply: `''` when not found. */
  datatype Stamp = Blank | Seconds(value: int)

  /** A reply of the status endpoint. */
  datatype StatusReply = StatusReply(code: int, status: string, filename: string, timestamp: Stamp,
                                     explanation: Option<string>)

  /** `status`: 404 with empty fields for an unknown uid; otherwise the
      status and the details read from the stored name, whose exceptions
      reach the caller. */
  function StatusEndpoint(uid: string, listing: seq<string>, outputFound: string -> bool): (r: Outcome<StatusReply>)
    ensures FindFileByUid(listing, uid).None? ==>
      r == Returned(StatusReply(404, "not found", "", Blank, None))
    ensures r.Returned? && r.value.code == 404 ==> FindFileByUid(listing, uid).None?
    ensures r.Returned? && r.value.code != 404 ==>
      && r.value.code == 200
      && (r.value.status == "done" || r.value.status == "pending")
      && (r.value.explanation.Some? <==> r.value.status == "done")
    ensures r.Raised? ==> r.error == IndexError || r.error == ValueError
  {
    match FindFileByUid(listing, uid)
    case None => Returned(StatusReply(404, "not found", "", Blank, None))
    case Some(path) =>
      var st := GetStatus(path, outputFound);
      match GetFileDetails(path, st)
      case Raised(e) => Raised(e)
      case Returned(d) => Returned(StatusReply(200, st, d.filename, Seconds(d.timestamp), d.explanation))
  }

  /** As written, a status query for a stored upload that is found fails:
      the endpoint never reaches a reply. */
  lemma StatusOfStoredUploadAsWritten(listing: seq<string>, i: nat, name: string, t: DateTime, uid: string,
                                      outputFound: string -> bool)
    requires ValidDateTime(t) && IsCanonicalUuid(uid) && '/' !in name
    requires i < |listing| && listing[i] == UploadName(GetFilename(name), StrftimeStamp(t), uid)
    requires forall j :: 0 <= j < i ==> !Contains(listing[j], uid)
    ensures StatusEndpoint(uid, listing, outputFound) == Raised(ValueError)
  {
    FindsStoredUpload(listing, i, GetFilename(name), StrftimeStamp(t), uid);
    UploadDetailsAsWritten(name, t, uid, GetStatus(JoinPath(UploadFolder, listing[i]), outputFound));
  }
}
