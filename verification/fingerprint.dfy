/** Fingerprint shaping: which perceptual hashes an image yields for a hash
    kind, and in which order. */
module Fingerprint {
  import opened Metric

  /** The hash kinds the hashing package distinguishes; `Other` stands for any
      value that equals neither of the two known kinds. */
  datatype HashKind = Dct | Dhash | Other(name: string)

  /** A hash kind together with its duplicate threshold: the largest distance
      still classified as a duplicate. */
  datatype HashType = HashType(kind: HashKind, threshold: int)

  /** The perceptual hash functions, which are not part of this model: the DCT
      hash yields one word, the difference hash a (row, column) pair. */
  datatype Hasher<!Img> = Hasher(dct: Img -> U64, dhash: Img -> (U64, U64))

  /** Number of fingerprint components a hash kind produces. */
  function Components(kind: HashKind): nat
  {
    match kind
    case Dct => 1
    case Dhash => 2
    case Other(_) => 0
  }

  /** The fingerprint of a decoded image under `hashType`. */
  function ImageHash<Img>(hashType: HashType, hasher: Hasher<Img>, img: Img): (hashes: seq<U64>)
    ensures |hashes| == Components(hashType.kind)
    ensures hashType.kind.Dct? ==> hashes[0] == hasher.dct(img)
    ensures hashType.kind.Dhash? ==> hashes[0] == hasher.dhash(img).0 && hashes[1] == hasher.dhash(img).1
  {
    if hashType.kind.Dct? then
      [hasher.dct(img)]
    else if hashType.kind.Dhash? then
      var (rHash, cHash) := hasher.dhash(img);
      [rHash, cHash]
    else
      []
  }
}
