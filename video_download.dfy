/** The small download helper app in templates/student/video_download:
    the link clean-up, and the one counter `i` shared by the audio and
    the video download, which names the files it writes. The YouTube
    fetch, ffmpeg and the history file are not modelled; a folder is the
    set of file names in it. */
module VideoDownload {
  import Text
  import Sets

  // ---------------------------------------------------------------------
  // clean_url
  // ---------------------------------------------------------------------

  /** `s.split(c)[0]`: the text before the first `c`, or all of `s`. */
  function Before(s: string, c: char): (r: string)
    ensures |r| <= |s| && r == s[..|r|]
    ensures c !in r
    ensures |r| < |s| ==> s[|r|] == c
  {
    if s == [] then []
    else if s[0] == c then []
    else [s[0]] + Before(s[1..], c)
  }

  /** `Before` is the first piece of the split on `c`. */
  lemma {:induction false} BeforeIsFirstPiece(s: string, c: char)
    ensures Before(s, c) == Text.SplitOn(s, [c])[0]
  {
    var r := Before(s, c);
    match Text.Find(s, [c])
    case None =>
      forall k | 0 <= k < |s| ensures s[k] != c {
        assert !Text.OccursAt(s, [c], k);
        assert s[k..k + 1][0] == s[k];
      }
      BeforeAbsent(s, c);
    case Some(i) =>
      if |r| < |s| {
        assert Text.OccursAt(s, [c], |r|);
        assert s[i] == s[i..i + 1][0];
        assert i == |r|;
      }
  }

  /** Without a `c`, all of `s` comes before it. */
  lemma BeforeAbsent(s: string, c: char)
    requires c !in s
    ensures Before(s, c) == s
  {
    assert |Before(s, c)| == |s|;
  }

  /** `clean_url`: the part before the first `&`, then before the first `?`. */
  function CleanUrl(link: string): (r: string)
    ensures '&' !in r && '?' !in r
    ensures |r| <= |link| && r == link[..|r|]
  {
    var r := Before(Before(link, '&'), '?');
    assert Before(link, '&')[..|r|] == link[..|r|];
    r
  }

  /** A link with neither character comes back unchanged. */
  lemma CleanUrlKeepsPlainLink(link: string)
    requires '&' !in link && '?' !in link
    ensures CleanUrl(link) == link
  {
  }

  /** Cleaning a cleaned link changes nothing. */
  lemma CleanUrlIdempotent(link: string)
    ensures CleanUrl(CleanUrl(link)) == CleanUrl(link)
  {
    CleanUrlKeepsPlainLink(CleanUrl(link));
  }

  /** A link with a query keeps exactly the part before the `?`, when
      that part holds neither character. */
  lemma {:induction false} CleanUrlCutsQuery(head: string, query: string)
    requires '&' !in head && '?' !in head
    ensures CleanUrl(head + "?" + query) == head
  {
    var link := head + "?" + query;
    var n := |head|;
    assert link[..n + 1] == head + "?";
    BeforeReaches(link, '&', n + 1);
    var a := Before(link, '&');
    assert a[..n] == link[..n + 1][..n] == head;
    assert a[n] == link[n] == '?';
    BeforeOfPrefix(head, a, '?');
  }

  /** The cut at the first `?` takes the video id of a `watch?v=` link with
      it: all such links clean to the same string. */
  lemma WatchLinkLosesId(id: string)
    ensures CleanUrl("youtube.com/watch?v=" + id) == "youtube.com/watch"
  {
    var head := "youtube.com/watch";
    assert "youtube.com/watch?v=" + id == head + "?" + ("v=" + id);
    CleanUrlCutsQuery(head, "v=" + id);
  }

  /** The first `c` lies no earlier than the first `n` characters allow. */
  lemma BeforeReaches(s: string, c: char, n: nat)
    requires n <= |s| && c !in s[..n]
    ensures |Before(s, c)| >= n
  {
    assert forall k :: 0 <= k < n ==> s[k] == s[..n][k];
  }

  lemma {:induction false} BeforeOfPrefix(head: string, s: string, c: char)
    requires |head| < |s| && s[..|head|] == head && c !in head && s[|head|] == c
    ensures Before(s, c) == head
  {
    if head != [] {
      assert s[0] == head[0];
      assert s[1..][..|head| - 1] == head[1..];
      BeforeOfPrefix(head[1..], s[1..], c);
    }
  }

  // ---------------------------------------------------------------------
  // The rotating counter
  // ---------------------------------------------------------------------

  /** `f"{n}.mp4"`. */
  function FileName(n: nat): string {
    Text.NatToString(n) + ".mp4"
  }

  /** The names the counter can produce. */
  function CounterNames(): (names: set<string>)
    ensures |names| == 5
  {
    var names := {FileName(0), FileName(1), FileName(2), FileName(3), FileName(4)};
    assert FileName(0)[0] == '0' && FileName(1)[0] == '1' && FileName(2)[0] == '2';
    assert FileName(3)[0] == '3' && FileName(4)[0] == '4';
    names
  }

  /** Every counter value below five names one of those files. */
  lemma CounterNamed(n: nat)
    requires n < 5
    ensures FileName(n) in CounterNames()
  {
    assert n == 0 || n == 1 || n == 2 || n == 3 || n == 4;
  }

  /** A folder that holds only the app's own files holds at most five. */
  lemma OwnFolderBounded(folder: set<string>)
    requires folder <= CounterNames()
    ensures |folder| <= 5
  {
    Sets.SubsetCard(folder, CounterNames());
  }

  /** The app's module state: the global counter and the two folders. */
  class Downloader {
    var i: int
    var audios: set<string>
    var videos: set<string>

    /** The counter stays in 0..4. */
    predicate Valid()
      reads this
    {
      0 <= i < 5
    }

    /** Both folders hold nothing but names the counter produced. */
    predicate OwnFiles()
      reads this
    {
      audios <= CounterNames() && videos <= CounterNames()
    }

    /** Module load: `i = 0`, and the folders keep whatever they held. */
    constructor(audios0: set<string>, videos0: set<string>)
      ensures i == 0 && audios == audios0 && videos == videos0
      ensures Valid()
    {
      i := 0;
      audios := audios0;
      videos := videos0;
    }

    /** `download_audio`: the audio folder is emptied when it holds more
        than five entries, the converted `{i}.mp4` is left in it (the
        downloaded `.mp3` is removed), the path is named after the old
        counter, and the counter moves on modulo 5. `fetched` is the
        link handed to the downloader. */
    method DownloadAudio(link: string) returns (path: string, fetched: string)
      requires Valid()
      modifies this
      ensures fetched == CleanUrl(link)
      ensures path == "audios/" + FileName(old(i))
      ensures i == (old(i) + 1) % 5
      ensures audios == (if |old(audios)| > 5 then {} else old(audios)) + {FileName(old(i))}
      ensures videos == old(videos)
      ensures Valid()
      ensures old(OwnFiles()) ==> OwnFiles() && audios == old(audios) + {FileName(old(i))}
    {
      fetched := CleanUrl(link);
      CounterNamed(i);
      if audios <= CounterNames() {
        OwnFolderBounded(audios);
      }
      if |audios| > 5 {
        audios := {};
      }
      audios := audios + {FileName(i)};
      path := "audios/" + FileName(i);
      i := (i + 1) % 5;
    }

    /** `download_video`: the video folder is emptied when it holds more
        than two entries, `{i}.mp4` is written to it under the old counter,
        and the counter moves on modulo 2, so it is 0 or 1 afterwards. */
    method DownloadVideo(link: string) returns (path: string, fetched: string)
      requires Valid()
      modifies this
      ensures fetched == CleanUrl(link)
      ensures path == "videos/" + FileName(old(i))
      ensures i == (old(i) + 1) % 2 && i < 2
      ensures videos == (if |old(videos)| > 2 then {} else old(videos)) + {FileName(old(i))}
      ensures audios == old(audios)
      ensures Valid()
      ensures old(OwnFiles()) ==> OwnFiles()
    {
      fetched := CleanUrl(link);
      CounterNamed(i);
      if |videos| > 2 {
        videos := {};
      }
      videos := videos + {FileName(i)};
      path := "videos/" + FileName(i);
      i := (i + 1) % 2;
    }
  }

  /** The fourth name the counter gives out is `3.mp4`. */
  lemma FileNameThree()
    ensures FileName(3) == "3.mp4"
  {
    assert Text.NatToString(3) == [Text.Digit(3)] == "3";
  }

  /** The counter is shared: after three audio downloads a video is saved
      under the counter value 3 (`videos/3.mp4`), a name the video download
      alone never reaches. */
  method SharedCounter() returns (path: string)
    ensures path == "videos/" + FileName(3)
  {
    var d := new Downloader({}, {});
    var _, _ := d.DownloadAudio("a");
    var _, _ := d.DownloadAudio("b");
    var _, _ := d.DownloadAudio("c");
    assert d.i == 3;
    var fetched;
    path, fetched := d.DownloadVideo("d");
  }
}
