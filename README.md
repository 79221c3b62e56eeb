# Repost detector: a verified model of its core

`repost.py` watches a subreddit's stream of submissions. For each picture it computes
a 64-bit difference hash (dHash). It compares that hash by Hamming distance with every
hash it has stored. When stored hashes are within distance 4, it replies with links to
the earlier submissions and reports the new one. Then it stores the new submission's id
under its own hash. The script also has codecs between a bit list and integers, meant
for a database row of eleven integers (ten 6-bit groups and one 4-bit group).

This project models that core in Dafny and proves properties of it:

- `wrappers.dfy`, module `Wrappers`: `Option`, the model's `None`.
- `bit_codec.dfy`, module `BitCodec` (repost.py lines 8-35): `intToBitList` as the
  pure function `IntToBitList`; `bitArrayToInt`, `combineRow` and `splitBitArray` as
  methods with loops, each proved equal to a specification function (`Value`,
  `Combined`, `Split`). Lemmas give both round trips between a 64-bit list and its
  eleven integers, and the ranges of those integers.
- `dhash.dfy`, module `DHash` (lines 39-53): `hash` from the resized 8x9 grey grid
  onwards, and `hammingDistance`, both pure functions.
- `repost.dfy`, module `Repost` (lines 65-115): one iteration of `main`'s loop. It is a
  method on class `Detector`, which holds the `hashes` dictionary. The dictionary is a
  `map` from key to list of ids, plus `order`, the keys in the dictionary's iteration
  (insertion) order. The per-key scan and the duplicate check are their own methods
  (`FindMatches`, `CheckMatches`), and `Record` is the part after hashing.

Modelling decisions:

- Bits are the integers 0 and 1 (subset type `Bit`). For such a bit, `(out << 1) | bit`
  equals `out * 2 + bit`, which is how `BitArrayToInt` folds.
- `IntToBitList` follows Python's format `f"{n:0{size}b}"` exactly: it pads with zeros
  to `size` digits and never truncates. So `n >= 2^size` gives a longer list, and
  `size = 0`, `n = 0` gives `[0]`. A negative `n` prints a '-' sign, which becomes a
  leading 0 bit. The "exactly `size` bits" property therefore holds for
  `1 <= size` and `0 <= n < 2^size`.
- Python slices clamp at the end of the list; `Slice` and `Drop` do the same, so
  `splitBitArray` is modelled for lists of any length.
- A grey level is an integer in 0..255, as in OpenCV's 8-bit image.
- A dictionary key is the hash printed as 64 characters '0'/'1' (`KeyOf`). Line 92
  parses it back (`ParseKey`): '1' becomes 1 and any other character 0.
- The network and the image library are the parameter `fetch: string -> Download`. It
  gives either a failed request or the decoded image (or no image, when OpenCV could
  not read the file), already converted to grey and resized to 8x9.
- Replying, removing the reply and reporting are not performed. They are the `Notice`
  value the step returns: the reply text and the report reason.
- The code has no segment index, ranking, top-10 cap, item records or retry state.
  The model follows the code and adds none of them. The scan is a linear pass over every
  stored key, and the matches are the stored lists concatenated in key order.

## Model

| member | source | states |
|---|---|---|
| BitCodec.BitLength | repost.py:9 | the digit count of `n`'s binary form is the least `r >= 1` with `n < 2^r` |
| BitCodec.ToBitsAt | repost.py:9 | digit `k` of a `w`-digit encoding of `n` is `(n / 2^(w-1-k)) % 2`: most significant first |
| BitCodec.IntToBitList | repost.py:8-9 | the list is never shorter than `size`: the format pads and never truncates (its value and bit order are stated by `IntToBitListSpec` and `IntToBitListNegative`) |
| BitCodec.IntToBitListSpec | repost.py:8-9 | for `n >= 0` the list denotes `n`, is at least `size` long, exactly `size` long when `1 <= size` and `n < 2^size`, and bit `k` carries weight `2^(len-1-k)` |
| BitCodec.IntToBitListFits | repost.py:8-9 | for `1 <= size` and `0 <= n < 2^size` the list is the `size`-bit encoding of `n` |
| BitCodec.IntToBitListNegative | repost.py:8-9 | for `n < 0` the sign becomes a leading 0 bit and the list denotes `-n` |
| BitCodec.Value | repost.py:13-17 | the value of a bit list is below `2^len` |
| BitCodec.BitArrayToInt | repost.py:13-17 | the loop returns the left fold `out*2 + bit` of the list, which is below `2^len` |
| BitCodec.ValueOfToBits | repost.py:8-17 | `bitArrayToInt` inverts the `w`-bit encoding of any `n < 2^w` |
| BitCodec.ToBitsOfValue | repost.py:8-17 | encoding `bitArrayToInt(a)` in `len(a)` bits gives back `a` |
| BitCodec.CombineRow | repost.py:21-26 | the loop builds every integer but the last as 6 bits, then the last as 4 bits (`Combined`) |
| BitCodec.SplitBitArray | repost.py:30-35 | the loop yields the values of the ten 6-bit slices and of the rest (`Split`) |
| BitCodec.SplitRanges | repost.py:30-35 | always 11 integers, the first ten below 64, the last below 16 when the list has at most 64 bits |
| BitCodec.CombineSplit | repost.py:21-35 | `combineRow(splitBitArray(a)) == a` for every 64-bit list |
| BitCodec.SplitCombine | repost.py:21-35 | `splitBitArray(combineRow(row)) == row` for every row of ten integers in [0,64) and one in [0,16) |
| DHash.FlattenAt | repost.py:48 | flattening rows of 8 bits puts cell (r, c) at position `8*r + c` |
| DHash.Hash | repost.py:39-48 | a hash, when there is one, has 64 bits (its bits are stated by `HashSpec`) |
| DHash.HashSpec | repost.py:39-48 | no hash exactly when the image is missing or every cell equals the first; otherwise bit `8*r + c` is 1 exactly when cell (r, c+1) is strictly brighter than cell (r, c) |
| DHash.HammingDistance | repost.py:52-53 | the distance is at most the length, and 0 exactly when the lists are equal |
| DHash.HammingCountsMismatches | repost.py:52-53 | the distance is the number of positions at which the lists differ |
| DHash.HammingSymmetric | repost.py:52-53 | the distance does not depend on the order of its arguments |
| Repost.ImageUrl | repost.py:70-73 | the link when it ends in .jpg or .png, otherwise the thumbnail |
| Repost.ParseKey | repost.py:92 | parsing a key gives one bit per character |
| Repost.KeyOfParseKey | repost.py:88-92 | a key of '0'/'1' characters is the key of the bits it parses to, so keys and hashes correspond one to one |
| Repost.KeyOf | repost.py:88-92 | the key of a hash is '0'/'1' characters, one per bit, and parsing it back gives the hash |
| Repost.ImageHash | repost.py:67-87 | a submission has a hash exactly when it is not a self post, the download succeeded and the image has a hash; that hash has 64 bits |
| Repost.MatchesIn | repost.py:90-95 | the matches never hold more ids than the scanned keys store (which ids they hold is stated by `MatchesInExactly`) |
| Repost.MatchesInSnoc | repost.py:91-95 | visiting one more key appends that key's ids exactly when it is within distance 4 |
| Repost.MatchesInExactly | repost.py:90-95 | an id is among the matches exactly when some stored key within distance 4 holds it |
| Repost.ReplyText | repost.py:101-106 | the reply starts with "Possible repost of:" and grows by at least 18 characters per match |
| Repost.ReplyTextIsHeaderAndLinks | repost.py:101-106 | the reply is the header followed by one `"\n\nhttps://redd.it/" + id` per match, in the order of the matches |
| Repost.CheckMatches | repost.py:99-106 | the loop reports a duplicate exactly when the id is among the matches, and otherwise has built the reply with one link per match |
| Repost.Append | repost.py:113-115 | storing adds only the hash's key, keeps every earlier list as a prefix of its new list, ends the list under the key with the id, and leaves every other key unchanged |
| Repost.AppendKey | repost.py:113-115 | the earlier keys keep their places and a new key is added once, at the end, as dictionary insertion gives it |
| Repost.AppendKeepsAligned | repost.py:113-115 | after storing, the key order still lists every key of the dictionary exactly once |
| Repost.StoredIdIsMatched | repost.py:90-108 | in any state where an id is stored under the key of hash `h`, a delivery whose hash is within distance 4 of `h` finds that id among its matches |
| Repost.RedeliveryIsDuplicate | repost.py:90-115 | right after an id is stored under hash `h`, a second delivery whose hash is within distance 4 of `h` finds its own id among the matches |
| Repost.RedeliveryAfterOtherStores | repost.py:90-115 | storing an id, then another submission, then delivering the first again with a hash within distance 4 ends in a dropped duplicate |
| Repost.Detector.constructor | repost.py:62 | the detector starts from the loaded dictionary and its key order |
| Repost.Detector.FindMatches | repost.py:90-95 | the scan returns the ids of every stored key within distance 4, in key order |
| Repost.Detector.Record | repost.py:90-115 | a submission among its matches is dropped with no change; otherwise the reply lists every match, no notice is sent when there are none, and the id is appended under its own key, with every other key unchanged |
| Repost.Detector.Store | repost.py:113-115 | the dictionary becomes `Append` of the old one and the key order `AppendKey` of the old one, with the keys still aligned |
| Repost.Detector.Step | repost.py:65-115 | self posts, failed requests and images with no hash are skipped with no change; otherwise it behaves as `Record` does on the image's hash |

## Left out

- Reddit access through `praw` (lines 58-59, 65, 109-111): the stream, posting and removing the reply, and the report. The model returns them as a `Notice` value instead.
- Downloading with `urllib`, the bare `except`, and writing and re-reading the temporary file (lines 75-84). These are I/O, represented by the `fetch` parameter. An exception in `response.read()` or in writing the file is not modelled.
- OpenCV's `imread`, `cvtColor` and `resize` (lines 42-43, 84). They are foreign image-library calls; the model starts from the resized 8x9 grey grid.
- `np.array2string` (line 88). For a 64-element 0/1 array it prints the 64 digits on one line; the model takes the key to be that string (`KeyOf`) rather than modelling numpy's printer.
- `pickle` load and dump and the modulo-10 save counter (lines 62-63, 66, 119-120). These are persistence; the constructor takes the loaded dictionary as given.
- DHash.HammingDistance: requires equal lengths. numpy's comparison of arrays of different shapes is not modelled; every call in the script compares two 64-bit arrays.
- BitCodec.CombineRow: requires a non-empty row. On an empty row, `row[-1]` raises `IndexError`, which the script never meets.
- BitCodec.BitArrayToInt: takes 0/1 elements only. `(out << 1) | bit` for other integers is not modelled; the script only passes hash bits.
