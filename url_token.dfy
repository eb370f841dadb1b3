/** The part token of a page address: the piece between the first and the
    second hyphen, as `url.split('-')[1]` computes it. */
module UrlToken {

  import opened Wrappers

  /** The character the address is split on. */
  const Separator: char := '-'

  predicate NoSeparator(s: string)
  {
    Separator !in s
  }

  /** JavaScript's `s.split('-')`: the maximal runs of non-hyphen characters
      between hyphens, in order. There is always at least one piece, and an
      empty string splits into one empty piece. */
  function Split(s: string): (pieces: seq<string>)
    ensures |pieces| >= 1
    ensures forall i :: 0 <= i < |pieces| ==> NoSeparator(pieces[i])
    decreases |s|
  {
    if s == [] then [""]
    else
      var rest := Split(s[1..]);
      if s[0] == Separator then [""] + rest
      else [[s[0]] + rest[0]] + rest[1..]
  }

  /** The inverse of Split: the pieces glued back together with hyphens. */
  function Join(pieces: seq<string>): string
    requires |pieces| >= 1
  {
    if |pieces| == 1 then pieces[0]
    else pieces[0] + [Separator] + Join(pieces[1..])
  }

  /** `url.split('-')[1]`: the second piece, or None (JavaScript's
      `undefined`) when the address has only one piece. */
  function Token(url: string): (token: Option<string>)
    ensures token.Some? ==> NoSeparator(token.value) && |token.value| < |url|
  {
    var pieces := Split(url);
    SplitJoin(url);
    if |pieces| >= 2 then
      JoinLength(pieces);
      Some(pieces[1])
    else None
  }

  /** Gluing the pieces back together gives the address again. */
  lemma {:induction false} SplitJoin(s: string)
    ensures Join(Split(s)) == s
    decreases |s|
  {
    if s != [] {
      var rest := Split(s[1..]);
      SplitJoin(s[1..]);
      if s[0] == Separator {
        assert Split(s) == [""] + rest;
        assert ([""] + rest)[1..] == rest;
        assert s == [] + [Separator] + s[1..];
      } else if |rest| == 1 {
        assert Split(s) == [[s[0]] + rest[0]];
        assert s == [s[0]] + s[1..];
      } else {
        var head := [s[0]] + rest[0];
        assert Split(s) == [head] + rest[1..];
        assert ([head] + rest[1..])[1..] == rest[1..];
        calc {
          Join(Split(s));
          head + [Separator] + Join(rest[1..]);
          [s[0]] + (rest[0] + [Separator] + Join(rest[1..]));
          [s[0]] + Join(rest);
          [s[0]] + s[1..];
          s;
        }
      }
    }
  }

  /** Every piece but the first is preceded by a hyphen, so the pieces after
      the first are strictly shorter than the whole. */
  lemma {:induction false} JoinLength(pieces: seq<string>)
    requires |pieces| >= 2
    ensures |pieces[1]| < |Join(pieces)|
    ensures |pieces[0]| + 1 + |pieces[1]| <= |Join(pieces)|
  {
    if |pieces| > 2 {
      assert Join(pieces[1..]) == pieces[1] + [Separator] + Join(pieces[2..]);
    }
  }

  /** A piece without hyphens splits into itself, and a hyphen after it
      closes exactly that one piece. */
  lemma {:induction false} SplitPiece(p: string, rest: string)
    requires NoSeparator(p)
    ensures Split(p) == [p]
    ensures Split(p + [Separator] + rest) == [p] + Split(rest)
    decreases |p|
  {
    if p == [] {
      assert [] + [Separator] + rest == [Separator] + rest;
      assert ([Separator] + rest)[1..] == rest;
    } else {
      SplitPiece(p[1..], rest);
      assert p == [p[0]] + p[1..];
      var s := p + [Separator] + rest;
      assert s[0] == p[0] && s[1..] == p[1..] + [Separator] + rest;
      assert ([p[1..]] + Split(rest))[1..] == Split(rest);
    }
  }

  /** Splitting what Join glued gives back the same pieces, as long as no
      piece holds a hyphen: Split and Join are inverse. */
  lemma {:induction false} JoinSplit(pieces: seq<string>)
    requires |pieces| >= 1
    requires forall i :: 0 <= i < |pieces| ==> NoSeparator(pieces[i])
    ensures Split(Join(pieces)) == pieces
  {
    if |pieces| == 1 {
      SplitPiece(pieces[0], "");
    } else {
      JoinSplit(pieces[1..]);
      SplitPiece(pieces[0], Join(pieces[1..]));
      assert [pieces[0]] + pieces[1..] == pieces;
    }
  }

  /** An address has no token exactly when it contains no hyphen. */
  lemma TokenAbsentIff(url: string)
    ensures Token(url) == None <==> NoSeparator(url)
  {
    if NoSeparator(url) {
      SplitPiece(url, "");
    } else {
      SplitJoin(url);
    }
  }

  /** Whatever precedes the first hyphen, the token is the hyphen-free text
      after it, and everything from the second hyphen on is ignored. */
  lemma TokenOfParts(p: string, t: string, rest: string)
    requires NoSeparator(p) && NoSeparator(t)
    requires rest == [] || rest[0] == Separator
    ensures Token(p + [Separator] + t + rest) == Some(t)
  {
    var url := p + [Separator] + t + rest;
    assert url == p + [Separator] + (t + rest);
    SplitPiece(p, t + rest);
    if rest == [] {
      SplitPiece(t, "");
      assert t + rest == t;
    } else {
      SplitPiece(t, rest[1..]);
      assert t + rest == t + [Separator] + rest[1..];
    }
  }

  /** Conversely, a token sits right after the first hyphen of the address,
      and it is followed by the end of the address or by a second hyphen. */
  lemma TokenLocated(url: string)
    requires Token(url).Some?
    ensures var p, t := Split(url)[0], Token(url).value;
      && NoSeparator(p) && NoSeparator(t)
      && |p| + 1 + |t| <= |url|
      && url[..|p|] == p && url[|p|] == Separator
      && url[|p| + 1..|p| + 1 + |t|] == t
      && (|url| == |p| + 1 + |t| || url[|p| + 1 + |t|] == Separator)
  {
    var pieces := Split(url);
    SplitJoin(url);
    var p, t := pieces[0], pieces[1];
    var tail := Join(pieces[1..]);
    assert url == p + [Separator] + tail;
    if |pieces| == 2 {
      assert tail == t;
    } else {
      assert tail == t + [Separator] + Join(pieces[2..]);
    }
  }
}
