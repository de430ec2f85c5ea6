/** What the program may rely on when it identifies content by hash. */
module Hashing {

  /** sha256 as 64 hexadecimal digits, without collisions among the given texts. */
  ghost predicate Digest(sha: string -> string, texts: iset<string>) {
    (forall x :: |sha(x)| == 64) && forall x, y :: x in texts && y in texts && sha(x) == sha(y) ==> x == y
  }
}
