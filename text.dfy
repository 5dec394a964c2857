/** Python's `sep.join(parts)` on strings. */
module Text {

  /** The parts in order with `sep` between neighbours: its length is the
      parts' total length plus one separator per gap between two parts
      (`JoinAt` places every part). */
  function Join(parts: seq<string>, sep: string): (r: string)
    ensures |r| == TotalLength(parts) + GapsLength(|parts|, sep)
    ensures |parts| == 0 ==> r == ""
  {
    if |parts| == 0 then ""
    else if |parts| == 1 then parts[0]
    else parts[0] + sep + Join(parts[1..], sep)
  }

  /** The length taken by the separators between `count` parts. */
  function GapsLength(count: nat, sep: string): nat {
    if count <= 1 then 0 else |sep| + GapsLength(count - 1, sep)
  }

  /** The summed lengths of the parts. */
  function TotalLength(parts: seq<string>): nat {
    if |parts| == 0 then 0 else |parts[0]| + TotalLength(parts[1..])
  }

  /** The joined string splits, at any part, into the parts before it
      joined, one separator, the part itself verbatim, one separator and
      the parts after it joined: every part appears unmodified, in order,
      with exactly one separator between neighbours. */
  lemma {:induction false} JoinAt(parts: seq<string>, sep: string, i: nat)
    requires i < |parts|
    ensures Join(parts, sep)
         == Join(parts[..i], sep) + (if i > 0 then sep else "") + parts[i]
          + (if i + 1 < |parts| then sep + Join(parts[i + 1..], sep) else "")
  {
    var post := if i + 1 < |parts| then sep + Join(parts[i + 1..], sep) else "";
    if i == 0 {
      assert parts[..0] == [];
      assert Join(parts, sep) == parts[0] + post;
    } else {
      var tail := parts[1..];
      JoinAt(tail, sep, i - 1);
      assert tail[..i - 1] == parts[1..i];
      assert tail[i - 1] == parts[i];
      assert tail[i..] == parts[i + 1..];
      var front := Join(parts[1..i], sep) + (if i > 1 then sep else "");
      JoinFront(parts, sep, i);
      calc {
        Join(parts, sep);
        parts[0] + sep + Join(tail, sep);
        parts[0] + sep + (front + parts[i] + post);
        { Regroup(parts[0], sep, front, parts[i], post); }
        (parts[0] + sep + front) + parts[i] + post;
        Join(parts[..i], sep) + sep + parts[i] + post;
      }
    }
  }

  /** The parts before index `i > 0`, joined and followed by one separator,
      are the first part, a separator, and the parts from 1 to `i` joined
      and followed by a separator when there are any. */
  lemma JoinFront(parts: seq<string>, sep: string, i: nat)
    requires 0 < i < |parts|
    ensures Join(parts[..i], sep) + sep
         == parts[0] + sep + (Join(parts[1..i], sep) + (if i > 1 then sep else ""))
  {
    var pre := parts[..i];
    assert pre[1..] == parts[1..i] && pre[0] == parts[0];
    if i == 1 {
      assert Join(pre, sep) == parts[0];
    } else {
      assert Join(pre, sep) == parts[0] + sep + Join(parts[1..i], sep);
    }
  }

  lemma Regroup(a: string, b: string, c: string, d: string, e: string)
    ensures a + b + (c + d + e) == (a + b + c) + d + e
  {
  }
}
