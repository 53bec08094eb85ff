/** The bounded append-only JSON buffer: `char jsonBuffer[4096]` with a cursor `pos`. The model
    keeps the committed text, `buffer[0..pos)`, as a sequence; the cursor is its length. */
module JsonBuffer {
  import opened Types

  /** sizeof(jsonBuffer) */
  const CAPACITY: nat := 4096

  datatype Appended = Appended(ok: bool, content: seq<char>)

  /** appendToBuffer: the formatted fragment is committed only when it fits together with the
      terminating NUL, i.e. when its length is below `maxSize - position`; otherwise nothing is
      committed and the call fails. */
  function AppendToBuffer(buf: seq<char>, fragment: seq<char>): (r: Appended)
    requires |buf| < CAPACITY
    ensures r.ok <==> |fragment| < CAPACITY - |buf|
    ensures r.ok ==> r.content == buf + fragment
    ensures !r.ok ==> r.content == buf
    ensures |r.content| <= CAPACITY - 1
  {
    if |buf| + |fragment| < CAPACITY then Appended(true, buf + fragment) else Appended(false, buf)
  }

  /** Writing a fragment in two pieces succeeds exactly when writing it in one piece does, and then
      commits the same text: the reason a document written piece by piece fits iff it fits whole. */
  lemma AppendInPieces(buf: seq<char>, a: seq<char>, b: seq<char>)
    requires |buf| < CAPACITY
    ensures var first := AppendToBuffer(buf, a);
            var second := AppendToBuffer(first.content, b);
            var whole := AppendToBuffer(buf, a + b);
            (first.ok && second.ok) == whole.ok && (whole.ok ==> second.content == whole.content)
  {
    assert buf + (a + b) == buf + a + b;
  }

  /** The text of a run of fragments written one after the other. */
  function Concat(pieces: seq<string>): string {
    if |pieces| == 0 then [] else Concat(pieces[..|pieces| - 1]) + pieces[|pieces| - 1]
  }

  /** Text appended after committed text: stated once for abstract strings, so that callers do
      not prove it by extensionality on concrete documents. */
  lemma AppendAssoc(a: string, b: string, c: string)
    ensures (a + b) + c == a + (b + c)
  {
  }

  lemma Concat3(a: string, b: string, c: string)
    ensures Concat([a, b, c]) == a + b + c
  {
    assert [a, b, c][..2] == [a, b];
    assert [a, b][..1] == [a];
    assert [a][..0] == [];
    assert Concat([a]) == a;
  }

  lemma Concat5(a: string, b: string, c: string, d: string, e: string)
    ensures Concat([a, b, c, d, e]) == a + b + c + d + e
  {
    assert [a, b, c, d, e][..4] == [a, b, c, d];
    assert [a, b, c, d][..3] == [a, b, c];
    assert [a, b, c][..2] == [a, b];
    assert [a, b][..1] == [a];
    assert [a][..0] == [];
    assert Concat([a]) == a;
    assert Concat([a, b]) == a + b;
    assert Concat([a, b, c]) == a + b + c;
    assert Concat([a, b, c, d]) == a + b + c + d;
  }

  /** A run of appendToBuffer calls, each returning at the first failure: it succeeds exactly when
      the whole run fits, and then commits the run. */
  function AppendEach(buf: seq<char>, pieces: seq<string>): (r: Appended)
    requires |buf| < CAPACITY
    ensures r.ok <==> |buf| + |Concat(pieces)| < CAPACITY
    ensures r.ok ==> r.content == buf + Concat(pieces)
    ensures |r.content| < CAPACITY
  {
    if |pieces| == 0 then assert buf + [] == buf; Appended(true, buf)
    else
      var r := AppendEach(buf, pieces[..|pieces| - 1]);
      if !r.ok then r
      else
        assert buf + Concat(pieces) == r.content + pieces[|pieces| - 1];
        AppendToBuffer(r.content, pieces[|pieces| - 1])
  }

  /** Fragments separated by commas, as the encoders emit list elements. */
  function Join(frags: seq<string>): string {
    if |frags| == 0 then []
    else if |frags| == 1 then frags[0]
    else Join(frags[..|frags| - 1]) + "," + frags[|frags| - 1]
  }

  /** Adding one element to a list adds a comma (unless it is the first) and the element. */
  lemma JoinSnoc(frags: seq<string>, f: string)
    ensures Join(frags + [f]) == Join(frags) + (if |frags| > 0 then "," else "") + f
  {
    var all := frags + [f];
    assert all[..|all| - 1] == frags;
    if |frags| == 0 {
      assert all == [f];
    }
  }

  /** The text of a list only grows as more elements are written. */
  lemma {:induction false} JoinPrefixGrows(frags: seq<string>, i: nat, j: nat)
    requires i <= j <= |frags|
    ensures |Join(frags[..i])| <= |Join(frags[..j])|
  {
    if i < j {
      JoinPrefixGrows(frags, i, j - 1);
      assert frags[..j] == frags[..j - 1] + [frags[j - 1]];
      JoinSnoc(frags[..j - 1], frags[j - 1]);
    }
  }

  /** A list element as written: behind a comma unless it is the first. */
  function Entry(first: bool, text: string): (e: string)
    ensures |e| == |text| + (if first then 0 else 1)
  {
    if first then text else "," + text
  }

  /** Writing element j of a list appends a comma (unless j is the first) and the element, and the
      text so far never exceeds the text of the whole list. */
  lemma JoinNext(frags: seq<string>, j: nat)
    requires j < |frags|
    ensures Join(frags[..j + 1]) == Join(frags[..j]) + (if j > 0 then "," else "") + frags[j]
    ensures Join(frags[..j + 1]) == Join(frags[..j]) + Entry(j == 0, frags[j])
    ensures |Join(frags[..j + 1])| <= |Join(frags)|
  {
    assert frags[..j + 1] == frags[..j] + [frags[j]];
    JoinSnoc(frags[..j], frags[j]);
    if j > 0 {
      AppendAssoc(Join(frags[..j]), ",", frags[j]);
    }
    assert frags[..|frags|] == frags;
    JoinPrefixGrows(frags, j + 1, |frags|);
  }

  /** The loop that writes a list: each element behind a comma but the first, returning at the
      first piece that does not fit. It succeeds exactly when the whole list fits. */
  method AppendList(buf: seq<char>, items: seq<string>) returns (r: Appended)
    requires |buf| < CAPACITY
    ensures r.ok <==> |buf| + |Join(items)| < CAPACITY
    ensures r.ok ==> r.content == buf + Join(items)
    ensures |r.content| < CAPACITY
  {
    var cur := buf;
    var j := 0;
    while j < |items|
      invariant 0 <= j <= |items|
      invariant cur == buf + Join(items[..j]) && |cur| < CAPACITY
    {
      JoinNext(items, j);
      if j > 0 {
        r := AppendToBuffer(cur, ",");
        if !r.ok {
          return;
        }
        cur := r.content;
      }
      r := AppendToBuffer(cur, items[j]);
      if !r.ok {
        return;
      }
      cur := r.content;
      j := j + 1;
    }
    assert items[..|items|] == items;
    r := Appended(true, cur);
  }

  /** A whole list document written from position 0: the header run, the list, the closing
      text, stopping at the first piece that does not fit. */
  method AppendDocument(header: seq<string>, items: seq<string>, close: string) returns (r: Appended)
    ensures r.ok <==> |Concat(header) + Join(items) + close| < CAPACITY
    ensures r.ok ==> r.content == Concat(header) + Join(items) + close
    ensures |r.content| < CAPACITY
  {
    r := AppendEach([], header);
    assert r.ok ==> r.content == Concat(header);
    if r.ok {
      r := AppendList(r.content, items);
      if r.ok {
        r := AppendToBuffer(r.content, close);
      }
    }
  }

  /** The number of leading elements whose text fits after a prefix of `base` characters: the
      largest j <= m with base + |Join(frags[..j])| < CAPACITY, or 0 when there is none. */
  function FitCount(base: nat, frags: seq<string>, m: nat): (j: nat)
    requires m <= |frags|
    ensures j <= m
    ensures j > 0 ==> base + |Join(frags[..j])| < CAPACITY
    ensures j < m ==> base + |Join(frags[..j + 1])| >= CAPACITY
  {
    if m == 0 then 0
    else if base + |Join(frags[..m])| < CAPACITY then m
    else
      var j := FitCount(base, frags, m - 1);
      assert j < m - 1 ==> base + |Join(frags[..j + 1])| >= CAPACITY;
      j
  }

  /** FitCount is pinned down by the first element that does not fit. */
  lemma {:induction false} FitCountAt(base: nat, frags: seq<string>, m: nat, j: nat)
    requires j < m <= |frags|
    requires j == 0 || base + |Join(frags[..j])| < CAPACITY
    requires base + |Join(frags[..j + 1])| >= CAPACITY
    ensures FitCount(base, frags, m) == j
  {
    if m > j + 1 {
      JoinPrefixGrows(frags, j + 1, m);
      FitCountAt(base, frags, m - 1, j);
    }
  }
}
