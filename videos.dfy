/** The post-processing of `listVideos` and the file name of
    `getVideoDownloadUrl` (src/lib/s3.ts): the bucket listing is an input,
    the SDK calls around it are not modelled. */
module Videos {
  import opened Wrappers
  import Text

  /** One entry of `ListObjectsV2`'s `Contents`: every field may be absent.
      `lastModified` is the time in milliseconds. */
  datatype ListedObject = ListedObject(key: Option<string>, size: Option<nat>, lastModified: Option<int>)

  /** `VideoFile`. */
  datatype VideoFile = VideoFile(key: string, name: string, size: nat, lastModified: int)

  const VideoExtensions: seq<string> := [".mp4", ".webm", ".mov", ".avi", ".mkv"]

  /** `toLowerCase` on one character, for the question `listVideos` asks
      of it: A-Z become a-z and the Kelvin sign U+212A becomes `k`, the only
      characters whose lower case is a single ASCII letter other than
      themselves; all others are kept. */
  function LowerChar(c: char): (r: char)
    ensures 'A' <= c <= 'Z' ==> 'a' <= r <= 'z' && r as int - c as int == 32
    ensures !('A' <= c <= 'Z') && c != '\U{212A}' ==> r == c
  {
    if 'A' <= c <= 'Z' then (c as int + 32) as char
    else if c == '\U{212A}' then 'k'
    else c
  }

  function LowerCase(s: string): (r: string)
    ensures |r| == |s| && forall i {:trigger r[i]} :: 0 <= i < |s| ==> r[i] == LowerChar(s[i])
  {
    if s == [] then "" else [LowerChar(s[0])] + LowerCase(s[1..])
  }

  /** The test `listVideos` applies to a lower-cased key. */
  predicate HasVideoExtension(key: string): (r: bool)
    ensures r <==> (|| Text.EndsWith(key, ".mp4") || Text.EndsWith(key, ".webm") || Text.EndsWith(key, ".mov")
                    || Text.EndsWith(key, ".avi") || Text.EndsWith(key, ".mkv"))
  {
    assert VideoExtensions[0] == ".mp4" && VideoExtensions[1] == ".webm" && VideoExtensions[2] == ".mov"
      && VideoExtensions[3] == ".avi" && VideoExtensions[4] == ".mkv";
    exists i :: 0 <= i < |VideoExtensions| && Text.EndsWith(key, VideoExtensions[i])
  }

  /** The filter of `listVideos`: the lower-cased key (`""` when absent)
      ends with one of the five video extensions. A kept object always has
      a key of at least four characters, so the empty-key fallbacks of the
      `map` step never apply to it. */
  predicate IsVideo(item: ListedObject): (r: bool)
    ensures r ==> item.key.Some? && |item.key.value| >= 4
  {
    var lower := if item.key.Some? then LowerCase(item.key.value) else "";
    if HasVideoExtension(lower) then
      ExtensionLength(lower);
      true
    else
      false
  }

  /** Lower-casing works character by character. */
  lemma {:induction false} LowerCaseConcat(a: string, b: string)
    ensures LowerCase(a + b) == LowerCase(a) + LowerCase(b)
  {
    if a != [] {
      LowerCaseConcat(a[1..], b);
      assert (a + b)[0] == a[0] && (a + b)[1..] == a[1..] + b;
    } else {
      assert a + b == b;
    }
  }

  /** A key with a video extension has at least four characters and ends
      in `4`, `m`, `v` or `i`. */
  lemma ExtensionLength(key: string)
    requires HasVideoExtension(key)
    ensures |key| >= 4
    ensures var c := key[|key| - 1]; c == '4' || c == 'm' || c == 'v' || c == 'i'
  {
    var i :| 0 <= i < |VideoExtensions| && Text.EndsWith(key, VideoExtensions[i]);
    var ext := VideoExtensions[i];
    assert |ext| >= 4;
    assert key[|key| - 1] == ext[|ext| - 1];
  }

  /** A key ending in a video extension written in any case is kept,
      whatever precedes the extension and whatever the other fields hold. */
  lemma UpperCaseKept(prefix: string, ext: string, i: nat, size: Option<nat>, lastModified: Option<int>)
    requires i < |VideoExtensions| && LowerCase(ext) == VideoExtensions[i]
    ensures IsVideo(ListedObject(Some(prefix + ext), size, lastModified))
  {
    LowerCaseConcat(prefix, ext);
    var lower := LowerCase(prefix + ext);
    assert lower[|lower| - |ext|..] == VideoExtensions[i];
    assert Text.EndsWith(lower, VideoExtensions[i]);
  }

  /** An object without a key is dropped, and so is one whose key, lower
      cased, ends in a character no video extension ends in. */
  lemma OthersDropped(key: string, size: Option<nat>, lastModified: Option<int>)
    ensures !IsVideo(ListedObject(None, size, lastModified))
    ensures key != [] && LowerChar(key[|key| - 1]) !in "4mvi" ==> !IsVideo(ListedObject(Some(key), size, lastModified))
  {
    if HasVideoExtension("") {
      ExtensionLength("");
    }
    var lower := LowerCase(key);
    if HasVideoExtension(lower) {
      ExtensionLength(lower);
    }
  }

  /** `key.split("/").pop()`: the text after the last `/` (all of the key
      when it has none). */
  function LastPiece(key: string): (last: string)
    ensures Text.EndsWith(key, last) && '/' !in last
    ensures |last| < |key| ==> key[|key| - |last| - 1] == '/'
  {
    var parts := Text.Split(key, '/');
    Text.SplitLast(key, '/');
    parts[|parts| - 1]
  }

  /** `key.split("/").pop() || key`: the last piece, or the whole key when
      that piece is empty. `getVideoDownloadUrl` names the attachment by it
      and `listVideos` names each video by it. */
  function FileName(key: string): (name: string)
    ensures name == "" <==> key == ""
    ensures Text.EndsWith(key, name)
  {
    var last := LastPiece(key);
    if last != "" then last else key
  }

  /** The file name is the key when it holds no `/` or ends with one, and
      otherwise the non-empty `/`-free text after its last `/`. */
  lemma FileNameIsLastSegment(key: string)
    ensures '/' !in key ==> FileName(key) == key
    ensures key != [] && key[|key| - 1] == '/' ==> FileName(key) == key
    ensures '/' in key && key[|key| - 1] != '/' ==>
      var name := FileName(key);
      && name != "" && '/' !in name && Text.EndsWith(key, name)
      && key[|key| - |name| - 1] == '/'
  {
    if '/' !in key {
      Text.SplitWithout(key, '/');
      assert LastPiece(key) == key;
    } else if key[|key| - 1] == '/' {
      FileNameOfDirectory(key);
    } else {
      FileNameOfFile(key);
    }
  }

  lemma FileNameOfDirectory(key: string)
    requires key != [] && key[|key| - 1] == '/'
    ensures FileName(key) == key
  {
    var last := LastPiece(key);
    SuffixFacts(key, last);
  }

  lemma FileNameOfFile(key: string)
    requires '/' in key && key[|key| - 1] != '/'
    ensures var name := FileName(key);
      && name != "" && '/' !in name && Text.EndsWith(key, name)
      && key[|key| - |name| - 1] == '/'
  {
    var last := LastPiece(key);
    SuffixFacts(key, last);
    assert last != "";
    assert |last| < |key|;
  }

  /** A non-empty suffix ends with the text's last character, and a suffix
      as long as the text is the text. */
  lemma SuffixFacts(s: string, p: string)
    requires Text.EndsWith(s, p)
    ensures p != "" ==> s[|s| - 1] == p[|p| - 1] && s[|s| - 1] in p
    ensures |p| == |s| ==> p == s
  {
    if p != "" {
      assert s[|s| - 1] == s[|s| - |p|..][|p| - 1];
    }
  }

  /** The `VideoFile` the `map` step builds; `now` stands for `new Date()`. */
  function ToVideo(item: ListedObject, now: int): (v: VideoFile)
    ensures item.key.Some? ==> v.key == item.key.value && v.name == FileName(item.key.value)
    ensures item.key.None? ==> v.key == "" && v.name == ""
    ensures v.size == (if item.size.Some? then item.size.value else 0)
    ensures v.lastModified == (if item.lastModified.Some? then item.lastModified.value else now)
  {
    var name := if item.key.Some? then FileName(item.key.value) else "";
    VideoFile(
      if item.key.Some? then item.key.value else "",
      name,
      if item.size.Some? && item.size.value != 0 then item.size.value else 0,
      if item.lastModified.Some? then item.lastModified.value else now)
  }

  /** `contents.filter(...)`: the video entries, in listing order. */
  function KeepVideos(listing: seq<ListedObject>): (kept: seq<ListedObject>)
    ensures |kept| <= |listing|
    ensures forall i :: 0 <= i < |kept| ==> IsVideo(kept[i])
  {
    if listing == [] then []
    else if IsVideo(listing[0]) then [listing[0]] + KeepVideos(listing[1..])
    else KeepVideos(listing[1..])
  }

  /** The filter keeps order and multiplicity: filtering a concatenation
      filters each part. */
  lemma {:induction false} KeepVideosConcat(a: seq<ListedObject>, b: seq<ListedObject>)
    ensures KeepVideos(a + b) == KeepVideos(a) + KeepVideos(b)
  {
    if a == [] {
      assert a + b == b;
    } else {
      assert (a + b)[0] == a[0] && (a + b)[1..] == a[1..] + b;
      KeepVideosConcat(a[1..], b);
    }
  }

  /** An entry is kept exactly when it is listed and is a video. */
  lemma {:induction false} KeepVideosIff(listing: seq<ListedObject>, item: ListedObject)
    ensures item in KeepVideos(listing) <==> item in listing && IsVideo(item)
  {
    if listing != [] {
      KeepVideosIff(listing[1..], item);
      assert listing == [listing[0]] + listing[1..];
    }
  }

  /** `.map(...)` */
  function ToVideos(kept: seq<ListedObject>, now: int): (videos: seq<VideoFile>)
    ensures |videos| == |kept|
    ensures forall i :: 0 <= i < |kept| ==> videos[i] == ToVideo(kept[i], now)
  {
    if kept == [] then [] else [ToVideo(kept[0], now)] + ToVideos(kept[1..], now)
  }

  /** Newest first: the order `sort` is asked for. */
  predicate NewestFirst(s: seq<VideoFile>) {
    forall i, j :: 0 <= i < j < |s| ==> s[i].lastModified >= s[j].lastModified
  }

  /** The entries with time stamp `t`, in order. */
  function Stamped(s: seq<VideoFile>, t: int): seq<VideoFile> {
    if s == [] then []
    else if s[0].lastModified == t then [s[0]] + Stamped(s[1..], t)
    else Stamped(s[1..], t)
  }

  /** Places `v` before the first entry that is no newer than it. */
  function Insert(v: VideoFile, s: seq<VideoFile>): (r: seq<VideoFile>)
    ensures multiset(r) == multiset(s) + multiset{v}
  {
    if s == [] then [v]
    else if s[0].lastModified <= v.lastModified then [v] + s
    else
      assert s == [s[0]] + s[1..];
      [s[0]] + Insert(v, s[1..])
  }

  /** `.sort((a, b) => b.lastModified - a.lastModified)`. `Array.prototype.sort`
      is stable, so the result is fixed by the comparator: entries with the
      same time stamp keep their relative order. */
  function SortByNewest(s: seq<VideoFile>): (r: seq<VideoFile>)
    ensures multiset(r) == multiset(s)
  {
    if s == [] then []
    else
      assert s == [s[0]] + s[1..];
      Insert(s[0], SortByNewest(s[1..]))
  }

  /** `listVideos` after the bucket has answered with `listing`: the mapped
      video entries, newest first, no more of them than listed objects. */
  function ListVideos(listing: seq<ListedObject>, now: int): (r: seq<VideoFile>)
    ensures NewestFirst(r)
    ensures multiset(r) == multiset(ToVideos(KeepVideos(listing), now))
    ensures |r| <= |listing|
  {
    var videos := ToVideos(KeepVideos(listing), now);
    SortNewestFirst(videos);
    assert |multiset(SortByNewest(videos))| == |videos|;
    SortByNewest(videos)
  }

  lemma {:induction false} InsertNewestFirst(v: VideoFile, s: seq<VideoFile>)
    requires NewestFirst(s)
    ensures NewestFirst(Insert(v, s))
  {
    if s != [] && s[0].lastModified > v.lastModified {
      InsertNewestFirst(v, s[1..]);
      var r := Insert(v, s);
      assert r == [s[0]] + Insert(v, s[1..]);
      forall j | 1 <= j < |r| ensures s[0].lastModified >= r[j].lastModified {
        assert r[j] in multiset(Insert(v, s[1..]));
        assert r[j] == v || r[j] in s[1..];
      }
    }
  }

  /** The result of the sort is newest first. */
  lemma {:induction false} SortNewestFirst(s: seq<VideoFile>)
    ensures NewestFirst(SortByNewest(s))
  {
    if s != [] {
      SortNewestFirst(s[1..]);
      InsertNewestFirst(s[0], SortByNewest(s[1..]));
    }
  }

  /** Everything skipped over by `Insert` is newer, so `v` lands before
      every other entry with its own time stamp. */
  lemma {:induction false} InsertStamped(v: VideoFile, s: seq<VideoFile>, t: int)
    ensures Stamped(Insert(v, s), t) == (if v.lastModified == t then [v] else []) + Stamped(s, t)
  {
    if s != [] && s[0].lastModified > v.lastModified {
      InsertStamped(v, s[1..], t);
    }
  }

  /** Stability: for every time stamp, the entries carrying it appear in the
      sorted result in their original order. */
  lemma {:induction false} SortStable(s: seq<VideoFile>, t: int)
    ensures Stamped(SortByNewest(s), t) == Stamped(s, t)
  {
    if s != [] {
      SortStable(s[1..], t);
      InsertStamped(s[0], SortByNewest(s[1..]), t);
    }
  }

  /** Newest-first order and stability pin the result down: any sequence
      with both properties relative to `s` is the sorted one. */
  lemma {:induction false} StableSortUnique(a: seq<VideoFile>, b: seq<VideoFile>)
    requires NewestFirst(a) && NewestFirst(b)
    requires forall t :: Stamped(a, t) == Stamped(b, t)
    ensures a == b
    decreases |a|
  {
    if a == [] || b == [] {
      if a != [] {
        StampedHas(a);
      } else if b != [] {
        StampedHas(b);
      }
    } else {
      var ta, tb := a[0].lastModified, b[0].lastModified;
      StampedHas(a);
      StampedHas(b);
      StampedMember(b, Stamped(a, ta)[0], ta);
      StampedMember(a, Stamped(b, tb)[0], tb);
      assert ta == tb && a[0] == b[0];
      forall t ensures Stamped(a[1..], t) == Stamped(b[1..], t) {
        assert Stamped(a, t) == Stamped(b, t);
        if t == ta {
          assert Stamped(a, t)[1..] == Stamped(a[1..], t);
          assert Stamped(b, t)[1..] == Stamped(b[1..], t);
        }
      }
      StableSortUnique(a[1..], b[1..]);
      assert a == [a[0]] + a[1..] && b == [b[0]] + b[1..];
    }
  }

  /** The first entry is among those carrying its own time stamp, first. */
  lemma StampedHas(s: seq<VideoFile>)
    requires s != []
    ensures Stamped(s, s[0].lastModified) != [] && Stamped(s, s[0].lastModified)[0] == s[0]
  {
  }

  /** An entry of a newest-first sequence carrying stamp `t` is no newer
      than the first entry. */
  lemma {:induction false} StampedMember(s: seq<VideoFile>, x: VideoFile, t: int)
    requires NewestFirst(s) && x in Stamped(s, t)
    ensures x in s && x.lastModified == t && s[0].lastModified >= t
  {
    if s[0].lastModified != t || x != s[0] {
      if s[0].lastModified == t {
        assert x in Stamped(s[1..], t);
      }
      StampedMember(s[1..], x, t);
      assert NewestFirst(s[1..]);
      if |s| > 1 {
        assert s[0].lastModified >= s[1].lastModified;
      }
    }
  }

  /** The pipeline's result is newest first, and stable; its entries are
      exactly the mapped video entries, so there are no more of them than
      listed objects and each one comes from a listed video. */
  lemma ListVideosCorrect(listing: seq<ListedObject>, now: int)
    ensures var r := ListVideos(listing, now);
      && NewestFirst(r)
      && multiset(r) == multiset(ToVideos(KeepVideos(listing), now))
      && (forall t :: Stamped(r, t) == Stamped(ToVideos(KeepVideos(listing), now), t))
      && |r| <= |listing|
      && forall v :: v in r ==> exists item :: item in listing && IsVideo(item) && v == ToVideo(item, now)
  {
    var kept := KeepVideos(listing);
    var videos := ToVideos(kept, now);
    var r := ListVideos(listing, now);
    forall t ensures Stamped(r, t) == Stamped(videos, t) {
      SortStable(videos, t);
    }
    forall v | v in r ensures exists item :: item in listing && IsVideo(item) && v == ToVideo(item, now) {
      assert v in multiset(videos);
      var i :| 0 <= i < |videos| && videos[i] == v;
      KeepVideosIff(listing, kept[i]);
    }
  }
}
