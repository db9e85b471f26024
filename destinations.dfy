/** The destination list: TO_PHONE_NUMBER split on commas, each piece
    stripped of surrounding whitespace, and the pieces that strip to nothing
    dropped. */
module Destinations {
  import opened PyStr

  /** A usable destination: trimmed and free of commas. */
  predicate Clean(d: string) {
    Trimmed(d) && ',' !in d
  }

  /** A string that holds only whitespace and commas. */
  predicate Blank(s: string) {
    forall k :: 0 <= k < |s| ==> IsSpace(s[k]) || s[k] == ','
  }

  /** The stripped pieces that are not empty, in their original order. */
  function Keep(pieces: seq<string>): (r: seq<string>)
    ensures |r| <= |pieces|
    ensures forall k :: 0 <= k < |r| ==> Trimmed(r[k])
  {
    if pieces == [] then []
    else
      var p := Strip(pieces[0]);
      if p != "" then [p] + Keep(pieces[1..]) else Keep(pieces[1..])
  }

  /** Every kept entry is the stripped form of one of the pieces. */
  lemma {:induction false} KeepFromPieces(pieces: seq<string>, k: nat)
    requires k < |Keep(pieces)|
    ensures exists j :: 0 <= j < |pieces| && Keep(pieces)[k] == Strip(pieces[j])
    decreases |pieces|
  {
    var p := Strip(pieces[0]);
    if p != "" && k == 0 {
      assert Keep(pieces)[0] == Strip(pieces[0]);
    } else {
      var k' := if p != "" then k - 1 else k;
      KeepFromPieces(pieces[1..], k');
      var j :| 0 <= j < |pieces[1..]| && Keep(pieces[1..])[k'] == Strip(pieces[1..][j]);
      assert Keep(pieces)[k] == Strip(pieces[j + 1]);
    }
  }

  /** Nothing is kept exactly when every piece strips to the empty string. */
  lemma {:induction false} KeepEmpty(pieces: seq<string>)
    ensures Keep(pieces) == [] <==> forall j :: 0 <= j < |pieces| ==> Strip(pieces[j]) == ""
    decreases |pieces|
  {
    if pieces != [] {
      KeepEmpty(pieces[1..]);
      assert forall j :: 1 <= j < |pieces| ==> pieces[j] == pieces[1..][j - 1];
    }
  }

  /** Keep works piece by piece, so it preserves the order of the pieces. */
  lemma {:induction false} KeepAppend(a: seq<string>, b: seq<string>)
    ensures Keep(a + b) == Keep(a) + Keep(b)
    decreases |a|
  {
    if a == [] {
      assert a + b == b;
    } else {
      KeepAppend(a[1..], b);
      assert (a + b)[1..] == a[1..] + b;
    }
  }

  /** Pieces that are already trimmed are kept unchanged and all of them. */
  lemma {:induction false} KeepTrimmed(ds: seq<string>)
    requires forall k :: 0 <= k < |ds| ==> Trimmed(ds[k])
    ensures Keep(ds) == ds
    decreases |ds|
  {
    if ds != [] {
      StripTrimmed(ds[0]);
      KeepTrimmed(ds[1..]);
    }
  }

  /** The parsed destination list of a TO_PHONE_NUMBER value:
      `[n.strip() for n in s.split(',') if n.strip()]`. */
  function Parse(s: string): (ds: seq<string>)
    ensures forall k :: 0 <= k < |ds| ==> Clean(ds[k])
  {
    var pieces := Split(s, ',');
    var ds := Keep(pieces);
    assert forall k :: 0 <= k < |ds| ==> ',' !in ds[k] by {
      forall k | 0 <= k < |ds| ensures ',' !in ds[k] {
        KeepFromPieces(pieces, k);
        var j :| 0 <= j < |pieces| && ds[k] == Strip(pieces[j]);
        StripChars(pieces[j]);
      }
    }
    ds
  }

  /** Each parsed destination is unchanged by stripping it again. */
  lemma ParseStripped(s: string, k: nat)
    requires k < |Parse(s)|
    ensures Strip(Parse(s)[k]) == Parse(s)[k]
  {
    StripTrimmed(Parse(s)[k]);
  }

  /** Each parsed destination is the stripped form of one comma-separated
      piece of `s`, and the pieces' left-to-right order is kept: the
      destinations of `a + "," + b` are those of `a` followed by those of `b`. */
  lemma ParseOrder(a: string, b: string)
    ensures Parse(a + [','] + b) == Parse(a) + Parse(b)
  {
    var pa := Split(a, ',');
    JoinSplit(a, ',');
    assert a == Join(pa, [',']);
    SplitOfJoinComma(pa, b);
    KeepAppend(pa, Split(b, ','));
  }

  /** Helper for ParseOrder: splitting `Join(pa) + "," + b` splits each side. */
  lemma {:induction false} SplitOfJoinComma(pa: seq<string>, b: string)
    requires |pa| >= 1
    requires forall k :: 0 <= k < |pa| ==> ',' !in pa[k]
    ensures Split(Join(pa, [',']) + [','] + b, ',') == pa + Split(b, ',')
    decreases |pa|
  {
    if |pa| == 1 {
      SplitAfterPiece(pa[0], b, ',');
    } else {
      var t := Join(pa[1..], [',']);
      SplitOfJoinComma(pa[1..], b);
      assert Join(pa, [',']) + [','] + b == pa[0] + [','] + (t + [','] + b);
      SplitAfterPiece(pa[0], t + [','] + b, ',');
      assert [pa[0]] + (pa[1..] + Split(b, ',')) == pa + Split(b, ',');
    }
  }

  /** Clean destinations survive a round trip through their comma-join. */
  lemma ParseJoin(ds: seq<string>)
    requires forall k :: 0 <= k < |ds| ==> Clean(ds[k])
    ensures Parse(Join(ds, [','])) == ds
  {
    if ds == [] {
      assert Strip("") == "";
    } else {
      SplitJoin(ds, ',');
      KeepTrimmed(ds);
    }
  }

  /** Re-parsing the comma-join of a parsed list gives the same list. */
  lemma ReparseIdempotent(s: string)
    ensures Parse(Join(Parse(s), [','])) == Parse(s)
  {
    ParseJoin(Parse(s));
  }

  /** No destination is found exactly when the string holds nothing but
      whitespace and commas (the empty string included). */
  lemma {:induction false} ParseEmpty(s: string)
    ensures Parse(s) == [] <==> Blank(s)
    decreases |s|
  {
    if |s| > 0 {
      var rest := Split(s[1..], ',');
      ParseEmpty(s[1..]);
      assert Blank(s) <==> (IsSpace(s[0]) || s[0] == ',') && Blank(s[1..]);
      if s[0] == ',' {
        assert Split(s, ',') == [""] + rest;
        assert Strip("") == "";
      } else {
        var head := [s[0]] + rest[0];
        assert Split(s, ',') == [head] + rest[1..];
        assert rest == [rest[0]] + rest[1..];
        StripEmpty(head);
        StripEmpty(rest[0]);
        assert AllSpace(head) <==> IsSpace(s[0]) && AllSpace(rest[0]) by {
          assert forall k :: 1 <= k < |head| ==> head[k] == rest[0][k - 1];
        }
      }
    }
  }

  /** A list such as "d1, d2,, ": whitespace around a destination and the
      empty pieces after trailing commas are dropped. */
  lemma ParseDropsBlankPieces(d1: string, d2: string)
    requires Clean(d1) && Clean(d2)
    ensures Parse(d1 + ", " + d2 + ",, ") == [d1, d2]
  {
    var p2 := " " + d2;
    var tail := "" + [','] + " ";
    assert d1 + ", " + d2 + ",, " == d1 + [','] + (p2 + [','] + tail);
    ParseOrder(d1, p2 + [','] + tail);
    ParseOrder(p2, tail);
    ParseOrder("", " ");
    ParseEmpty("");
    ParseEmpty(" ");
    ParseJoin([d1]);
    ParseJoin([d2]);
    assert ',' !in p2;
    SplitNoSep(p2, ',');
    SplitNoSep(d2, ',');
    assert LStrip(p2) == LStrip(d2);
  }
}
