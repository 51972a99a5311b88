/**
 * Download URLs of the nightly `llvm-tools` artifact on the three paths that
 * serve Rust's release channel: the Fastly and CloudFront edges and the S3
 * origin bucket.  The host differs per path; the path below it is the same.
 */
module Dist {

  const ARTIFACT := "llvm-tools-nightly-aarch64-unknown-linux-gnu.tar.gz"

  const FASTLY_HOST := "https://fastly-static.rust-lang.org"
  const CLOUDFRONT_HOST := "https://cloudfront-static.rust-lang.org"
  // Long literals are written in two parts: the verifier sees the individual
  // characters of a short literal only.
  const S3_HOST := "https://static-rust-lang-org" + ".s3.us-west-1.amazonaws.com"

  /** `<host>/dist/<day>/<ARTIFACT>` */
  function Url(host: string, day: string): string {
    host + "/dist/" + day + "/" + ARTIFACT
  }

  /** The URL is the host, `/dist/`, the day, then `/` and the artifact name. */
  lemma UrlShape(host: string, day: string)
    ensures var url := Url(host, day);
      |url| == |host| + |day| + 7 + |ARTIFACT| &&
      url[..|host|] == host && url[|host|..|host| + 6] == "/dist/" &&
      url[|host| + 6..|host| + 6 + |day|] == day &&
      url[|url| - |ARTIFACT| - 1..] == "/" + ARTIFACT
  {
  }

  /** On one host, the URL determines the day it was built from. */
  lemma UrlInjective(host: string, a: string, b: string)
    requires Url(host, a) == Url(host, b)
    ensures a == b
  {
    UrlShape(host, a);
    UrlShape(host, b);
    var u := Url(host, a);
    assert a == u[|host| + 6..|host| + 6 + |a|];
  }

  lemma HostPrefix(host: string, day: string)
    requires |host| > 8
    ensures Url(host, day)[8] == host[8]
  {
  }

  /** The three paths never share a URL, whatever days they are asked for. */
  lemma HostsNeverCollide(a: string, b: string)
    ensures Url(FASTLY_HOST, a) != Url(CLOUDFRONT_HOST, b)
    ensures Url(FASTLY_HOST, a) != Url(S3_HOST, b)
    ensures Url(CLOUDFRONT_HOST, a) != Url(S3_HOST, b)
  {
    assert FASTLY_HOST[8] == 'f' && CLOUDFRONT_HOST[8] == 'c' && S3_HOST[8] == 's';
    HostPrefix(FASTLY_HOST, a);
    HostPrefix(CLOUDFRONT_HOST, a);
    HostPrefix(CLOUDFRONT_HOST, b);
    HostPrefix(S3_HOST, b);
  }
}
