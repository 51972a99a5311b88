/**
 * The crates.io step source: a forward cursor over the published versions of
 * one crate, giving the three download URLs of the current version's
 * `.crate` file.  The version list is what the registry returned, already
 * rendered as strings.
 */
module Crates {
  import opened Wrappers

  const FASTLY_HOST := "https://fastly-static.crates.io"
  const CLOUDFRONT_HOST := "https://cloudfront-static.crates.io"
  // Written in two parts: the verifier sees the individual characters of a
  // short literal only.
  const S3_HOST := "https://crates-io" + ".s3.us-west-1.amazonaws.com"

  /** `<host>/crates/<krate>/<krate>-<version>.crate` */
  function CrateUrl(host: string, krate: string, version: string): (url: string)
    ensures |url| == |host| + 2 * |krate| + |version| + 16
    ensures url[..|host|] == host && url[|host|..|host| + 8] == "/crates/"
    ensures url[|host| + 8..|host| + 8 + |krate|] == krate && url[|host| + 8 + |krate|] == '/'
    ensures url[|host| + 9 + |krate|..|host| + 9 + 2 * |krate|] == krate
    ensures url[|host| + 9 + 2 * |krate|] == '-'
    ensures url[|host| + 8 + 2 * |krate| + 2..|url| - 6] == version
    ensures url[|url| - 6..] == ".crate"
  {
    host + "/crates/" + krate + "/" + krate + "-" + version + ".crate"
  }

  /** For one crate on one host, the URL determines the version. */
  lemma CrateUrlInjective(host: string, krate: string, a: string, b: string)
    requires CrateUrl(host, krate, a) == CrateUrl(host, krate, b)
    ensures a == b
  {
  }

  lemma HostPrefix(host: string, krate: string, version: string, i: nat)
    requires i < |host|
    ensures CrateUrl(host, krate, version)[i] == host[i]
  {
  }

  /** The three paths never share a URL. */
  lemma HostsNeverCollide(krate: string, a: string, b: string)
    ensures CrateUrl(FASTLY_HOST, krate, a) != CrateUrl(CLOUDFRONT_HOST, krate, b)
    ensures CrateUrl(FASTLY_HOST, krate, a) != CrateUrl(S3_HOST, krate, b)
    ensures CrateUrl(CLOUDFRONT_HOST, krate, a) != CrateUrl(S3_HOST, krate, b)
  {
    assert FASTLY_HOST[8] == 'f' && CLOUDFRONT_HOST[8] == 'c' && S3_HOST[8] == 'c';
    assert CLOUDFRONT_HOST[9] == 'l' && S3_HOST[9] == 'r';
    HostPrefix(FASTLY_HOST, krate, a, 8);
    HostPrefix(CLOUDFRONT_HOST, krate, b, 8);
    HostPrefix(S3_HOST, krate, b, 8);
    HostPrefix(CLOUDFRONT_HOST, krate, a, 9);
    HostPrefix(S3_HOST, krate, b, 9);
  }

  class CratesCommand {
    const krate: string
    var versions: seq<string>
    var currentVersion: Option<string>

    // The list the cursor was built from, and how many versions it has handed out.
    ghost const all: seq<string>
    ghost var taken: nat

    ghost predicate Valid()
      reads this
    {
      taken <= |all| && versions == all[taken..] &&
      (currentVersion.Some? ==> 0 < taken && currentVersion.value == all[taken - 1])
    }

    /** `CratesCommand::new`, given the versions the registry listed, in its order. */
    constructor (krate: string, versions: seq<string>)
      ensures Valid() && this.krate == krate && all == versions
      ensures this.versions == versions && currentVersion == None && taken == 0
    {
      this.krate := krate;
      this.versions := versions;
      all := versions;
      currentVersion := None;
      taken := 0;
    }

    /**
     * Hands out the next version and makes it current; once the list is
     * exhausted it yields nothing and clears the current version.
     */
    method NextStep() returns (step: Option<string>)
      requires Valid()
      modifies this
      ensures Valid()
      ensures old(taken) < |all| ==> step == Some(all[old(taken)]) && taken == old(taken) + 1
      ensures old(taken) == |all| ==> step == None && taken == old(taken)
      ensures versions == if old(versions) == [] then [] else old(versions)[1..]
      ensures currentVersion == step
    {
      if versions == [] {
        step := None;
      } else {
        step := Some(versions[0]);
        versions := versions[1..];
        taken := taken + 1;
      }
      currentVersion := step;
    }

    /** The URL of the current version's `.crate` file on `host`, if there is a current version. */
    function UrlOn(host: string): (url: Option<string>)
      reads this
      ensures url.Some? <==> currentVersion.Some?
      ensures url.Some? ==> url.value == CrateUrl(host, krate, currentVersion.value)
    {
      match currentVersion
      case None => None
      case Some(v) => Some(CrateUrl(host, krate, v))
    }

    function FastlyUrl(): (url: Option<string>)
      reads this
      requires Valid()
      ensures url.Some? <==> currentVersion.Some?
      ensures url.Some? ==> 0 < taken && url.value == CrateUrl(FASTLY_HOST, krate, all[taken - 1])
    {
      UrlOn(FASTLY_HOST)
    }

    function CloudFrontUrl(): (url: Option<string>)
      reads this
      requires Valid()
      ensures url.Some? <==> currentVersion.Some?
      ensures url.Some? ==> 0 < taken && url.value == CrateUrl(CLOUDFRONT_HOST, krate, all[taken - 1])
    {
      UrlOn(CLOUDFRONT_HOST)
    }

    function S3Url(): (url: Option<string>)
      reads this
      requires Valid()
      ensures url.Some? <==> currentVersion.Some?
      ensures url.Some? ==> 0 < taken && url.value == CrateUrl(S3_HOST, krate, all[taken - 1])
    {
      UrlOn(S3_HOST)
    }
  }

  /**
   * A source over two versions hands them out in order, then nothing; its
   * URLs follow the current version and vanish once the list is exhausted.
   */
  method WalkVersions(krate: string, first: string, second: string) returns (steps: seq<Option<string>>)
    ensures steps == [Some(first), Some(second), None]
  {
    var source := new CratesCommand(krate, [first, second]);
    assert source.FastlyUrl() == None;
    var a := source.NextStep();
    assert source.S3Url() == Some(CrateUrl(S3_HOST, krate, first));
    var b := source.NextStep();
    var c := source.NextStep();
    assert source.CloudFrontUrl() == None;
    steps := [a, b, c];
  }
}
