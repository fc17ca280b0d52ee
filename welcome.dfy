/**
 * The welcome image of `start`: the files start.jpg, start.jpeg, start.png and start.webp are tried
 * in that order; the first one that exists and is sent ends the search, a failed send is reported
 * and the search goes on, and when nothing was sent the user is told no start image was found.
 */
module Welcome {
  import opened Text
  import opened PhotoCatalog

  const StartExtensions: seq<string> := ["jpg", "jpeg", "png", "webp"]

  function StartFile(ext: string): string
  {
    "start." + ext
  }

  /** What `start` replies with after registering the user. */
  datatype Reply = WelcomePhoto(file: string) | StartImageFailed(file: string) | NoStartImage

  /**
   * Index of the first extension whose file exists (`present`) and whose send succeeds (`sendOk`);
   * |exts| when there is none.
   */
  function FirstSent(exts: seq<string>, present: set<string>, sendOk: set<string>): (i: nat)
    ensures i <= |exts|
    ensures forall j :: 0 <= j < i ==> !(StartFile(exts[j]) in present && StartFile(exts[j]) in sendOk)
    ensures i < |exts| ==> StartFile(exts[i]) in present && StartFile(exts[i]) in sendOk
  {
    if exts == [] then 0
    else if StartFile(exts[0]) in present && StartFile(exts[0]) in sendOk then 0
    else 1 + FirstSent(exts[1..], present, sendOk)
  }

  /** The failure notices for the files of `exts` that exist but could not be sent, in order. */
  function FailureNotices(exts: seq<string>, present: set<string>, sendOk: set<string>): (r: seq<Reply>)
    ensures forall x :: x in r <==> exists j :: (0 <= j < |exts| && x == StartImageFailed(StartFile(exts[j])) &&
      StartFile(exts[j]) in present && StartFile(exts[j]) !in sendOk)
  {
    if exts == [] then []
    else
      var last := StartFile(exts[|exts| - 1]);
      var init := exts[..|exts| - 1];
      var prefix := FailureNotices(init, present, sendOk);
      assert forall j :: 0 <= j < |init| ==> init[j] == exts[j];
      prefix + (if last in present && last !in sendOk then [StartImageFailed(last)] else [])
  }

  /**
   * The replies `start` sends: a notice for every file tried and not sent, then the welcome
   * photo, or "No start image found." when no file was sent.
   */
  function WelcomeReplies(exts: seq<string>, present: set<string>, sendOk: set<string>): seq<Reply>
  {
    var i := FirstSent(exts, present, sendOk);
    if i < |exts| then FailureNotices(exts[..i], present, sendOk) + [WelcomePhoto(StartFile(exts[i]))]
    else FailureNotices(exts, present, sendOk) + [NoStartImage]
  }

  /** The loop of `start` over the extensions, with `found` and `break`. */
  method SendWelcome(present: set<string>, sendOk: set<string>) returns (replies: seq<Reply>)
    ensures replies == WelcomeReplies(StartExtensions, present, sendOk)
  {
    var exts := StartExtensions;
    var found := false;
    replies := [];
    for i := 0 to |exts|
      invariant i <= FirstSent(exts, present, sendOk)
      invariant replies == FailureNotices(exts[..i], present, sendOk)
    {
      var file := StartFile(exts[i]);
      assert exts[..i + 1][..i] == exts[..i];
      if file in present {
        if file in sendOk {
          replies := replies + [WelcomePhoto(file)];
          found := true;
          break;
        }
        replies := replies + [StartImageFailed(file)];
      }
    }
    if !found {
      assert exts[..|exts|] == exts;
      replies := replies + [NoStartImage];
    }
  }

  /** "No start image found." is sent exactly when no start file was both present and sent. */
  lemma NoStartImageExactlyWhenNothingSent(present: set<string>, sendOk: set<string>)
    ensures NoStartImage in WelcomeReplies(StartExtensions, present, sendOk) <==>
      forall e :: e in StartExtensions ==> !(StartFile(e) in present && StartFile(e) in sendOk)
  {
    var exts := StartExtensions;
    var i := FirstSent(exts, present, sendOk);
    var r := WelcomeReplies(exts, present, sendOk);
    if i < |exts| {
      assert r[|r| - 1] == WelcomePhoto(StartFile(exts[i]));
      assert NoStartImage !in r[..|r| - 1];
      assert r == r[..|r| - 1] + [r[|r| - 1]];
    } else {
      forall e | e in exts ensures !(StartFile(e) in present && StartFile(e) in sendOk) {
        var j :| 0 <= j < |exts| && exts[j] == e;
      }
    }
  }

  /**
   * At most one welcome photo is sent, and when one is, it is the file of the first extension, in
   * the order jpg, jpeg, png, webp, that exists and sends; it is the last reply.
   */
  lemma WelcomePhotoIsFirstThatSends(present: set<string>, sendOk: set<string>, file: string)
    requires WelcomePhoto(file) in WelcomeReplies(StartExtensions, present, sendOk)
    ensures exists i :: (0 <= i < |StartExtensions| && file == StartFile(StartExtensions[i]) &&
      file in present && file in sendOk &&
      forall j :: 0 <= j < i ==> !(StartFile(StartExtensions[j]) in present && StartFile(StartExtensions[j]) in sendOk))
    ensures WelcomeReplies(StartExtensions, present, sendOk)[|WelcomeReplies(StartExtensions, present, sendOk)| - 1] == WelcomePhoto(file)
  {
  }

  /** The welcome images are never part of the daily rotation: their names start with "start". */
  lemma StartFilesLeftOutOfCatalog(listing: seq<string>, ext: string)
    ensures StartFile(ext) !in PhotoList(listing)
  {
    assert StartsWith(Lower(StartFile(ext)), WelcomePrefix) by {
      assert Lower(StartFile(ext))[..5] == "start";
    }
  }
}
