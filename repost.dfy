/**
 * The per-submission step of repost.py's main loop: pick the image URL, hash the
 * downloaded image, collect the ids stored under every key within Hamming distance 4,
 * drop a submission that is already among them (the stream delivered it twice),
 * otherwise notify when there were matches and append the id under the hash's own key.
 */
module Repost {
  import opened Wrappers
  import opened BitCodec
  import opened DHash

  /** A submission id, as the stream gives it. */
  type Id = string

  /** A dictionary key: a hash printed as 64 characters '0' and '1'. */
  type Key = string

  /** The fields of a stream submission that the step reads. */
  datatype Submission = Submission(id: Id, isSelf: bool, url: string, thumbnail: string)

  /**
   * What downloading a URL gives: the request failed, or the saved file was read back
   * and, when OpenCV could decode it, turned into the 8x9 grey grid.
   */
  datatype Download = RequestFailed | Downloaded(image: Option<Grid>)

  /** The side effects of a detected repost: the reply posted (and then removed) and the report filed. */
  datatype Notice = Notice(reply: string, reportReason: string)

  /** How the step ended for one submission. */
  datatype Outcome =
    | SkippedSelfPost
    | SkippedRequestFailed
    | SkippedNoHash
    | SkippedDuplicate
    | Stored(notice: Option<Notice>)

  /** The largest Hamming distance at which two hashes count as the same picture. */
  const MaxDistance := 4

  const ReplyHeader := "Possible repost of:"
  const ReportReason := "Possible Repost: check comments"

  function EndsWith(s: string, suffix: string): bool
  {
    |suffix| <= |s| && s[|s| - |suffix|..] == suffix
  }

  /** The URL to download: the link itself when it ends in .jpg or .png, otherwise the thumbnail. */
  function ImageUrl(sub: Submission): (url: string)
    ensures url == sub.url || url == sub.thumbnail
    ensures EndsWith(sub.url, ".jpg") || EndsWith(sub.url, ".png") ==> url == sub.url
    ensures !(EndsWith(sub.url, ".jpg") || EndsWith(sub.url, ".png")) ==> url == sub.thumbnail
  {
    if EndsWith(sub.url, ".jpg") || EndsWith(sub.url, ".png") then sub.url else sub.thumbnail
  }

  /** The parse of a key back into bits: '1' is 1, every other character 0. */
  function ParseKey(k: Key): (h: seq<Bit>)
    ensures |h| == |k|
  {
    seq(|k|, i requires 0 <= i < |k| => if k[i] == '1' then 1 else 0)
  }

  /** The key a hash is stored under: its bits printed as '0' and '1' with no separator. */
  function KeyOf(h: seq<Bit>): (k: Key)
    ensures |k| == |h|
    ensures ParseKey(k) == h
    ensures forall i :: 0 <= i < |k| ==> k[i] == '0' || k[i] == '1'
  {
    seq(|h|, i requires 0 <= i < |h| => if h[i] == 1 then '1' else '0')
  }

  /** A key of '0' and '1' characters is the key of the bits it parses to. */
  lemma KeyOfParseKey(k: Key)
    requires forall i :: 0 <= i < |k| ==> k[i] == '0' || k[i] == '1'
    ensures KeyOf(ParseKey(k)) == k
  {
    var h := ParseKey(k);
    forall i | 0 <= i < |k|
      ensures KeyOf(h)[i] == k[i]
    {
      assert h[i] == (if k[i] == '1' then 1 else 0);
    }
  }

  /** `hashes.get(key, [])`. */
  function Lookup(hashes: map<Key, seq<Id>>, key: Key): seq<Id>
  {
    if key in hashes then hashes[key] else []
  }

  /** How many ids the dictionary holds under the keys of `keys`. */
  function StoredUnder(keys: seq<Key>, hashes: map<Key, seq<Id>>): nat
    requires forall k :: k in keys ==> k in hashes
  {
    if keys == [] then 0 else StoredUnder(keys[..|keys| - 1], hashes) + |hashes[keys[|keys| - 1]]|
  }

  /** The stored lists concatenated, in the order of `keys`, for every key within MaxDistance of `h`. */
  function MatchesIn(keys: seq<Key>, hashes: map<Key, seq<Id>>, h: seq<Bit>): (r: seq<Id>)
    requires forall k :: k in keys ==> k in hashes && |k| == |h|
    ensures |r| <= StoredUnder(keys, hashes)
  {
    if keys == [] then []
    else
      var key := keys[|keys| - 1];
      MatchesIn(keys[..|keys| - 1], hashes, h)
        + if HammingDistance(ParseKey(key), h) <= MaxDistance then hashes[key] else []
  }

  /** An id is matched exactly when some key of `keys` within MaxDistance of `h` holds it. */
  lemma {:induction false} MatchesInExactly(keys: seq<Key>, hashes: map<Key, seq<Id>>, h: seq<Bit>, id: Id)
    requires forall k :: k in keys ==> k in hashes && |k| == |h|
    ensures id in MatchesIn(keys, hashes, h) <==>
      exists k :: k in keys && HammingDistance(ParseKey(k), h) <= MaxDistance && id in hashes[k]
  {
    if keys != [] {
      var init := keys[..|keys| - 1];
      var key := keys[|keys| - 1];
      assert keys == init + [key];
      MatchesInExactly(init, hashes, h, id);
      if id in MatchesIn(keys, hashes, h) {
        if id !in MatchesIn(init, hashes, h) {
          assert key in keys && HammingDistance(ParseKey(key), h) <= MaxDistance && id in hashes[key];
        }
      }
    }
  }

  lemma MatchesInSnoc(keys: seq<Key>, key: Key, hashes: map<Key, seq<Id>>, h: seq<Bit>)
    requires forall k :: k in keys ==> k in hashes && |k| == |h|
    requires key in hashes && |key| == |h|
    ensures MatchesIn(keys + [key], hashes, h) == MatchesIn(keys, hashes, h)
      + if HammingDistance(ParseKey(key), h) <= MaxDistance then hashes[key] else []
  {
    assert (keys + [key])[..|keys|] == keys;
  }

  /** The line the reply gives for one match. */
  function Link(m: Id): string
  {
    "\n\nhttps://redd.it/" + m
  }

  /** The text of the reply, built as the loop builds it: a link appended per match. */
  function ReplyText(matches: seq<Id>): (r: string)
    ensures ReplyHeader <= r
    ensures |r| >= |ReplyHeader| + 18 * |matches|
  {
    if matches == [] then ReplyHeader
    else ReplyText(matches[..|matches| - 1]) + Link(matches[|matches| - 1])
  }

  /** The links of `matches` in order, one after the other. */
  function Links(matches: seq<Id>): string
  {
    if matches == [] then "" else Link(matches[0]) + Links(matches[1..])
  }

  lemma {:induction false} ReplyTextAppend(done: seq<Id>, rest: seq<Id>)
    ensures ReplyText(done + rest) == ReplyText(done) + Links(rest)
    decreases |rest|
  {
    if rest == [] {
      assert done + rest == done;
    } else {
      var init := rest[..|rest| - 1];
      var last := rest[|rest| - 1];
      ReplyTextAppend(done, init);
      LinksSnoc(init, last);
      var all := done + rest;
      assert all[..|all| - 1] == done + init;
      assert all[|all| - 1] == last;
      assert rest == init + [last];
      calc {
        ReplyText(all);
        ReplyText(done + init) + Link(last);
        ReplyText(done) + Links(init) + Link(last);
        ReplyText(done) + Links(rest);
      }
    }
  }

  lemma {:induction false} LinksSnoc(ms: seq<Id>, m: Id)
    ensures Links(ms + [m]) == Links(ms) + Link(m)
  {
    if ms != [] {
      assert (ms + [m])[1..] == ms[1..] + [m];
      LinksSnoc(ms[1..], m);
    }
  }

  /** The reply is the header followed by one link per match, in the order of the matches. */
  lemma ReplyTextIsHeaderAndLinks(matches: seq<Id>)
    ensures ReplyText(matches) == ReplyHeader + Links(matches)
  {
    ReplyTextAppend([], matches);
    assert [] + matches == matches;
  }

  /**
   * The loop over the matches: it stops at the first occurrence of `id`, and
   * until then appends a link per match to the reply.
   */
  method CheckMatches(matches: seq<Id>, id: Id) returns (duplicate: bool, reply: string)
    ensures duplicate <==> id in matches
    ensures !duplicate ==> reply == ReplyText(matches)
  {
    duplicate := false;
    reply := ReplyHeader;
    var j := 0;
    while j < |matches|
      invariant 0 <= j <= |matches|
      invariant id !in matches[..j]
      invariant reply == ReplyText(matches[..j])
    {
      if matches[j] == id {
        duplicate := true;
        break;
      }
      assert matches[..j + 1][..j] == matches[..j];
      reply := reply + "\n\nhttps://redd.it/" + matches[j];
      assert reply == ReplyText(matches[..j]) + Link(matches[j]);
      j := j + 1;
    }
    assert !duplicate ==> matches[..j] == matches;
  }

  /** The hash of the submission's image, when it is not a self post, the download succeeded and the image has one. */
  function ImageHash(sub: Submission, fetch: string -> Download): (h: Option<seq<Bit>>)
    ensures h.Some? ==> |h.value| == 64
    ensures h.Some? <==> !sub.isSelf && fetch(ImageUrl(sub)).Downloaded? && Hash(fetch(ImageUrl(sub)).image).Some?
  {
    if sub.isSelf then None
    else
      match fetch(ImageUrl(sub))
      case RequestFailed => None
      case Downloaded(image) => Hash(image)
  }

  /**
   * The dictionary with `id` appended to the list under `key` (a new list when `key` is new).
   * Storing only ever adds: the only new key is `key`, every earlier list is a prefix of
   * its new list, `id` ends the list under `key`, and every other key is unchanged.
   */
  function Append(hashes: map<Key, seq<Id>>, key: Key, id: Id): (r: map<Key, seq<Id>>)
    ensures r.Keys == hashes.Keys + {key}
    ensures forall k :: k in hashes ==> hashes[k] <= r[k]
    ensures |r[key]| > 0 && r[key][|r[key]| - 1] == id
    ensures forall k :: k in hashes && k != key ==> r[k] == hashes[k]
  {
    hashes[key := Lookup(hashes, key) + [id]]
  }

  /**
   * The key order after `hashes[key] = ...`: the earlier keys keep their places, and
   * `key` is added at the end when it is new.
   */
  function AppendKey(order: seq<Key>, hashes: map<Key, seq<Id>>, key: Key): (r: seq<Key>)
    ensures order <= r && |r| <= |order| + 1
    ensures key !in hashes ==> |r| == |order| + 1 && r[|order|] == key
    ensures forall k :: k in r <==> k in order || (k == key && key !in hashes)
  {
    if key in hashes then order else order + [key]
  }

  /** The dictionary's key list stays aligned with it: same keys, each once, each 64 characters. */
  ghost predicate Aligned(order: seq<Key>, hashes: map<Key, seq<Id>>)
  {
    && (forall k :: k in order <==> k in hashes)
    && (forall i, j :: 0 <= i < j < |order| ==> order[i] != order[j])
    && (forall k :: k in hashes ==> |k| == 64)
  }

  lemma AppendKeepsAligned(order: seq<Key>, hashes: map<Key, seq<Id>>, key: Key, id: Id)
    requires Aligned(order, hashes) && |key| == 64
    ensures Aligned(AppendKey(order, hashes, key), Append(hashes, key, id))
  {
    var order' := AppendKey(order, hashes, key);
    if key !in hashes {
      forall i, j | 0 <= i < j < |order'|
        ensures order'[i] != order'[j]
      {
        if j == |order| {
          assert order[i] in order;
        }
      }
    }
  }

  /**
   * In any state where `id` is stored under the key of hash `h`, a delivery whose image
   * hashes to within MaxDistance of `h` finds `id` among its matches.
   */
  lemma StoredIdIsMatched(order: seq<Key>, hashes: map<Key, seq<Id>>, h: seq<Bit>, h': seq<Bit>, id: Id)
    requires |h| == |h'|
    requires forall k :: k in order ==> k in hashes && |k| == |h|
    requires KeyOf(h) in order && id in hashes[KeyOf(h)]
    requires HammingDistance(h, h') <= MaxDistance
    ensures id in MatchesIn(order, hashes, h')
  {
    HammingSymmetric(h, h');
    MatchesInExactly(order, hashes, h', id);
  }

  /**
   * Right after a submission is stored under the key of hash `h`, a second delivery of it
   * whose image hashes to within MaxDistance of `h` finds its own id among the matches.
   */
  lemma RedeliveryIsDuplicate(order: seq<Key>, hashes: map<Key, seq<Id>>, h: seq<Bit>, h': seq<Bit>, id: Id)
    requires |h| == |h'|
    requires forall k :: k in order <==> k in hashes
    requires forall k :: k in hashes ==> |k| == |h|
    requires HammingDistance(h, h') <= MaxDistance
    ensures var key := KeyOf(h);
      id in MatchesIn(AppendKey(order, hashes, key), Append(hashes, key, id), h')
  {
    var key := KeyOf(h);
    var order', hashes' := AppendKey(order, hashes, key), Append(hashes, key, id);
    assert key in order';
    assert forall k :: k in order' ==> k in hashes' && |k| == |h'|;
    StoredIdIsMatched(order', hashes', h, h', id);
  }

  /**
   * The dictionary of stored hashes, `hashes` in main: key to the ids of the
   * submissions whose image had that hash, with `order` giving the keys in the
   * order the dictionary iterates them (insertion order).
   */
  class Detector {
    var hashes: map<Key, seq<Id>>
    var order: seq<Key>

    ghost predicate Valid()
      reads this
    {
      Aligned(order, hashes)
    }

    /** The dictionary loaded at start-up, with its keys in iteration order. */
    constructor (stored: map<Key, seq<Id>>, keys: seq<Key>)
      requires forall k :: k in keys <==> k in stored
      requires forall i, j :: 0 <= i < j < |keys| ==> keys[i] != keys[j]
      requires forall k :: k in stored ==> |k| == 64
      ensures Valid()
      ensures hashes == stored && order == keys
    {
      hashes := stored;
      order := keys;
    }

    /** The scan of every stored key: the ids of all keys within MaxDistance of `h`, in key order. */
    method FindMatches(h: seq<Bit>) returns (matches: seq<Id>)
      requires Valid() && |h| == 64
      ensures matches == MatchesIn(order, hashes, h)
    {
      matches := [];
      var i := 0;
      while i < |order|
        invariant 0 <= i <= |order|
        invariant forall k :: k in order[..i] ==> k in hashes
        invariant matches == MatchesIn(order[..i], hashes, h)
      {
        var key := order[i];
        assert order[..i + 1] == order[..i] + [key];
        MatchesInSnoc(order[..i], key, hashes, h);
        var differences := HammingDistance(ParseKey(key), h);
        if differences <= MaxDistance {
          matches := matches + hashes[key];
        }
        i := i + 1;
      }
      assert order[..i] == order;
    }

    /**
     * The part of the loop body after hashing: scan for matches, give up on a
     * submission that is among them, otherwise notify when there are matches
     * and append the id under the hash's key.
     */
    method Record(id: Id, h: seq<Bit>) returns (outcome: Outcome)
      requires Valid() && |h| == 64
      modifies this
      ensures Valid()
      ensures var matches := MatchesIn(old(order), old(hashes), h);
        id in matches ==> outcome == SkippedDuplicate && unchanged(this)
      ensures var matches := MatchesIn(old(order), old(hashes), h);
        id !in matches ==>
          && outcome == Stored(if matches == [] then None else Some(Notice(ReplyText(matches), ReportReason)))
          && hashes == Append(old(hashes), KeyOf(h), id)
          && order == AppendKey(old(order), old(hashes), KeyOf(h))
    {
      var key := KeyOf(h);
      var matches := FindMatches(h);
      var notice := None;
      if |matches| > 0 {
        var duplicate, reply := CheckMatches(matches, id);
        if duplicate {
          return SkippedDuplicate;
        }
        notice := Some(Notice(reply, ReportReason));
      }

      Store(key, id);
      outcome := Stored(notice);
    }

    /** `hashes.get(key, [])`, append `id`, store the list back under `key`. */
    method Store(key: Key, id: Id)
      requires Valid() && |key| == 64
      modifies this
      ensures Valid()
      ensures hashes == Append(old(hashes), key, id)
      ensures order == AppendKey(old(order), old(hashes), key)
    {
      AppendKeepsAligned(order, hashes, key, id);
      var l := Lookup(hashes, key);
      l := l + [id];
      if key !in hashes {
        order := order + [key];
      }
      hashes := hashes[key := l];
    }

    /**
     * One iteration of main's loop for `sub`, with `fetch` standing for downloading a URL
     * and decoding the file.
     */
    method Step(sub: Submission, fetch: string -> Download) returns (outcome: Outcome)
      requires Valid()
      modifies this
      ensures Valid()
      ensures sub.isSelf ==> outcome == SkippedSelfPost && unchanged(this)
      ensures !sub.isSelf && fetch(ImageUrl(sub)).RequestFailed? ==>
        outcome == SkippedRequestFailed && unchanged(this)
      ensures !sub.isSelf && fetch(ImageUrl(sub)).Downloaded? && Hash(fetch(ImageUrl(sub)).image).None? ==>
        outcome == SkippedNoHash && unchanged(this)
      ensures ImageHash(sub, fetch).Some? ==>
        var h := ImageHash(sub, fetch).value;
        var matches := MatchesIn(old(order), old(hashes), h);
        sub.id in matches ==> outcome == SkippedDuplicate && unchanged(this)
      ensures ImageHash(sub, fetch).Some? ==>
        var h := ImageHash(sub, fetch).value;
        var matches := MatchesIn(old(order), old(hashes), h);
        sub.id !in matches ==>
          && outcome == Stored(if matches == [] then None else Some(Notice(ReplyText(matches), ReportReason)))
          && hashes == Append(old(hashes), KeyOf(h), sub.id)
          && order == AppendKey(old(order), old(hashes), KeyOf(h))
    {
      if sub.isSelf {
        return SkippedSelfPost;
      }
      var url := ImageUrl(sub);
      var download := fetch(url);
      if download.RequestFailed? {
        return SkippedRequestFailed;
      }
      var hashArray := Hash(download.image);
      if hashArray.None? {
        return SkippedNoHash;
      }
      outcome := Record(sub.id, hashArray.value);
    }
  }

  /**
   * A submission stored from an empty dictionary, then another submission stored, then
   * the first delivered again with an image whose hash is within MaxDistance: the third
   * step drops it as a duplicate.
   */
  method RedeliveryAfterOtherStores(id: Id, other: Id, h: seq<Bit>, g: seq<Bit>, h': seq<Bit>)
    returns (third: Outcome)
    requires |h| == 64 && |g| == 64 && |h'| == 64
    requires HammingDistance(h, h') <= MaxDistance
    ensures third == SkippedDuplicate
  {
    var d := new Detector(map[], []);
    var first := d.Record(id, h);
    assert first.Stored?;
    assert KeyOf(h) in d.order && id in d.hashes[KeyOf(h)];
    var second := d.Record(other, g);
    assert KeyOf(h) in d.order && id in d.hashes[KeyOf(h)];
    StoredIdIsMatched(d.order, d.hashes, h, h', id);
    third := d.Record(id, h');
  }
}
