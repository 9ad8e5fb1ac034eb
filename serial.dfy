/**
 * The serial port the driver talks through, as a scripted byte source and a byte log:
 * `read(n)` hands out at most `n` of the bytes the radio has sent, `write` records what
 * the computer sends. An exhausted script stands for a radio that stays silent.
 */
module Serial {
  import opened Bytes

  /** The bytes `read(n)` returns: at most `n`, fewer when the line runs dry. */
  function Take(s: seq<byte>, n: nat): (r: seq<byte>)
    ensures |r| <= n && |r| <= |s| && r == s[..|r|]
    ensures |r| < n ==> r == s
  {
    if n <= |s| then s[..n] else s
  }

  /** What is left on the line after `read(n)`. */
  function Drop(s: seq<byte>, n: nat): (r: seq<byte>)
    ensures Take(s, n) + r == s
  {
    s[|Take(s, n)|..]
  }

  /** Logging `b` then `c` logs `b + c`. */
  lemma AppendAssoc(a: seq<byte>, b: seq<byte>, c: seq<byte>)
    ensures a + b + c == a + (b + c)
  {
  }

  /** Logging `b`, then `c`, then `d` logs `b + c + d`. */
  lemma AppendAssoc3(a: seq<byte>, b: seq<byte>, c: seq<byte>, d: seq<byte>)
    ensures a + b + c + d == a + (b + c + d)
  {
  }

  class Pipe {
    /** Bytes the radio has sent that the driver has not read yet. */
    var input: seq<byte>
    /** Every byte the driver has written, oldest first. */
    var output: seq<byte>

    constructor(script: seq<byte>)
      ensures input == script && output == []
    {
      input := script;
      output := [];
    }

    method Read(n: nat) returns (data: seq<byte>)
      modifies this
      ensures data == Take(old(input), n) && input == Drop(old(input), n)
      ensures output == old(output)
    {
      data := Take(input, n);
      input := Drop(input, n);
    }

    method Write(data: seq<byte>)
      modifies this
      ensures output == old(output) + data && input == old(input)
    {
      output := output + data;
    }
  }
}
