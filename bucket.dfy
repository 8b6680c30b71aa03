/**
 * The storage bucket name built by `connectToGoogleDrive` (utils.js) from
 * the name the user gives at setup. Creating the bucket and uploading to it
 * are calls into the storage client and are not modelled.
 */
module Bucket {
  import opened Wrappers

  /** The fixed part of every bucket name. */
  const Suffix: string := "-youtube-rss"

  /** `${name}-youtube-rss`: the user's name as typed, then the fixed suffix. */
  function BucketName(name: string): (bucket: string)
    ensures |bucket| == |name| + |Suffix|
    ensures bucket[..|name|] == name && bucket[|name|..] == Suffix
  {
    name + Suffix
  }

  /** The name a bucket was derived from, if it carries the suffix. */
  function OwnerName(bucket: string): (name: Option<string>)
    ensures name.Some? <==> |Suffix| <= |bucket| && bucket[|bucket| - |Suffix|..] == Suffix
    ensures name.Some? ==> |name.value| == |bucket| - |Suffix| && name.value == bucket[..|name.value|]
  {
    if |Suffix| <= |bucket| && bucket[|bucket| - |Suffix|..] == Suffix
    then Some(bucket[..|bucket| - |Suffix|])
    else None
  }

  /** A bucket name is derived from `name` exactly when `OwnerName` gives `name` back. */
  lemma OwnerNameInverse(name: string, bucket: string)
    ensures OwnerName(bucket) == Some(name) <==> bucket == BucketName(name)
  {
    if bucket == BucketName(name) {
      assert bucket[|bucket| - |Suffix|..] == Suffix;
      assert bucket[..|bucket| - |Suffix|] == name;
    }
    if OwnerName(bucket) == Some(name) {
      assert bucket == bucket[..|name|] + bucket[|name|..];
    }
  }

  /**
   * The name is used as typed, not lowercased or otherwise normalised:
   * different names give different bucket names, so `Levi` and `levi` do too.
   */
  lemma BucketNameInjective(a: string, b: string)
    ensures BucketName(a) == BucketName(b) <==> a == b
  {
    OwnerNameInverse(a, BucketName(a));
    OwnerNameInverse(b, BucketName(b));
  }

  /** The bucket `uploadMP3` writes to is fixed in the source (utils.js line 74). */
  const UploadBucket: string := "levi-youtube-rss"

  /** That fixed bucket is the one setup derives for the name `levi`, and for no other name. */
  lemma UploadBucketOwner()
    ensures OwnerName(UploadBucket) == Some("levi")
    ensures forall name :: BucketName(name) == UploadBucket <==> name == "levi"
  {
    assert UploadBucket == BucketName("levi");
    forall name ensures BucketName(name) == UploadBucket <==> name == "levi" {
      BucketNameInjective(name, "levi");
    }
    OwnerNameInverse("levi", UploadBucket);
  }
}
