/** Stored and running digests, and the sink a content traversal feeds. */
module Digest {
  import opened Prelude

  /** A declared content digest: algorithm name and lower-case hex. */
  datatype StoredHash = StoredHash(algorithm: string, hex: string)

  datatype Algorithm = Md5 | Sha1 | Sha256 | Sha512 | Blake2b

  /** The digest functions themselves are library code. */
  type DigestFunction = (Algorithm, seq<Byte>) -> seq<Byte>

  function UpperChar(c: char): char {
    if 'a' <= c <= 'z' then (c - 'a') + 'A' else c
  }

  function Upper(s: string): (r: string)
    ensures |r| == |s|
  {
    seq(|s|, i requires 0 <= i < |s| => UpperChar(s[i]))
  }

  /** `Hasher::for_algorithm`. */
  function ForAlgorithm(name: string): Option<Algorithm> {
    var upper := Upper(name);
    if upper == "MD5" then Some(Md5)
    else if upper == "SHA1" then Some(Sha1)
    else if upper == "SHA256" then Some(Sha256)
    else if upper == "SHA512" then Some(Sha512)
    else if upper == "BLAKE2B" then Some(Blake2b)
    else None
  }

  /** The name an algorithm goes by in upper case. */
  function NameOf(a: Algorithm): string {
    match a
    case Md5 => "MD5"
    case Sha1 => "SHA1"
    case Sha256 => "SHA256"
    case Sha512 => "SHA512"
    case Blake2b => "BLAKE2B"
  }

  /** `c` is the capital or its small letter, 32 codes on. */
  predicate EitherCase(c: char, capital: char) {
    c == capital || ('A' <= capital <= 'Z' && c as int == capital as int + 32)
  }

  lemma UpperSpelled(name: string, capitals: string)
    requires forall i :: 0 <= i < |capitals| ==> !('a' <= capitals[i] <= 'z')
    ensures Upper(name) == capitals <==>
            |name| == |capitals| && forall i :: 0 <= i < |name| ==> EitherCase(name[i], capitals[i])
  {
    if Upper(name) == capitals {
      forall i | 0 <= i < |name|
        ensures EitherCase(name[i], capitals[i])
      {
        assert Upper(name)[i] == capitals[i];
      }
    }
  }

  /** A datatype name is recognised exactly when it is an algorithm's name letter by letter, each in either case,
      and then as that algorithm; upper-casing it changes nothing. */
  lemma RecognisedIff(name: string, a: Algorithm)
    ensures ForAlgorithm(name) == Some(a) <==>
            |name| == |NameOf(a)| && forall i :: 0 <= i < |name| ==> EitherCase(name[i], NameOf(a)[i])
    ensures ForAlgorithm(Upper(name)) == ForAlgorithm(name)
  {
    UpperSpelled(name, NameOf(a));
    assert Upper(Upper(name)) == Upper(name);
  }

  /** The names the standard uses, and two of them in other cases. */
  lemma StandardNames()
    ensures ForAlgorithm("MD5") == Some(Md5) && ForAlgorithm("SHA1") == Some(Sha1)
    ensures ForAlgorithm("SHA256") == Some(Sha256) && ForAlgorithm("SHA512") == Some(Sha512)
    ensures ForAlgorithm("Blake2b") == Some(Blake2b) && ForAlgorithm("sha1") == Some(Sha1)
    ensures ForAlgorithm("SHA224") == None
  {
    assert Upper("MD5") == "MD5" && Upper("SHA1") == "SHA1" && Upper("sha1") == "SHA1";
    assert Upper("SHA256") == "SHA256" && Upper("SHA512") == "SHA512" && Upper("SHA224") == "SHA224";
    assert Upper("Blake2b") == "BLAKE2B";
  }

  /** One letter, perhaps in two cases. */
  predicate SameLetter(c: char, d: char) {
    EitherCase(c, d) || EitherCase(d, c)
  }

  /** Two names reach the same algorithm exactly when they differ in case only. */
  lemma SameAlgorithmIff(name: string, other: string)
    requires ForAlgorithm(name).Some?
    ensures ForAlgorithm(name) == ForAlgorithm(other) <==>
            |name| == |other| && forall i :: 0 <= i < |name| ==> SameLetter(name[i], other[i])
  {
    var a := ForAlgorithm(name).value;
    RecognisedIff(name, a);
    RecognisedIff(other, a);
    forall i | 0 <= i < |name| && i < |other|
      ensures SameLetter(name[i], other[i]) <==> EitherCase(other[i], NameOf(a)[i])
    {
      assert EitherCase(name[i], NameOf(a)[i]);
    }
  }

  /** A running digest is the bytes fed so far. */
  datatype Hasher = Hasher(algorithm: Algorithm, fed: seq<Byte>)

  datatype Job = Job(stored: StoredHash, hasher: Hasher)

  /** Hands every slice of one traversal to every job. */
  class Sink {
    const jobs: array<Job>
    ghost var slices: seq<seq<Byte>>

    /** Every hasher has seen exactly the slices so far, in order. */
    ghost predicate Fed()
      reads this, jobs
    {
      forall i :: 0 <= i < jobs.Length ==> jobs[i].hasher.fed == Concat(slices)
    }

    /** The jobs, whatever their hashers have seen. */
    ghost function Declared(): (ds: seq<(StoredHash, Algorithm)>)
      reads this, jobs
      ensures |ds| == jobs.Length
      ensures forall i :: 0 <= i < |ds| ==> ds[i] == (jobs[i].stored, jobs[i].hasher.algorithm)
    {
      seq(jobs.Length, i requires 0 <= i < jobs.Length reads jobs => (jobs[i].stored, jobs[i].hasher.algorithm))
    }

    constructor (unfed: array<Job>)
      requires forall i :: 0 <= i < unfed.Length ==> unfed[i].hasher.fed == []
      ensures jobs == unfed && slices == [] && Fed()
    {
      jobs := unfed;
      slices := [];
    }

    method Feed(slice: seq<Byte>)
      requires Fed()
      modifies this, jobs
      ensures Fed() && slices == old(slices) + [slice]
      ensures Declared() == old(Declared())
    {
      for i := 0 to jobs.Length
        invariant forall k :: 0 <= k < i ==> jobs[k].hasher.fed == Concat(slices) + slice
        invariant forall k :: i <= k < jobs.Length ==> jobs[k].hasher.fed == Concat(slices)
        invariant forall k :: 0 <= k < jobs.Length ==>
                    jobs[k].stored == old(jobs[k].stored) && jobs[k].hasher.algorithm == old(jobs[k].hasher.algorithm)
        invariant slices == old(slices)
      {
        var job := jobs[i];
        jobs[i] := Job(job.stored, Hasher(job.hasher.algorithm, job.hasher.fed + slice));
      }
      ConcatSnoc(slices, slice);
      slices := slices + [slice];
    }
  }
}
