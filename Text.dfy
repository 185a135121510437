/** Splitting a title into tokens and joining tokens back with single spaces:
    the two string operations the variant generator is built on
    (`string.Split(' ', StringSplitOptions.RemoveEmptyEntries)` and the
    `StringBuilder` loop that puts one ' ' between candidates). */
module Text {

  /** A piece that `Split` can produce: non-empty and free of ' '. */
  predicate IsToken(p: string) {
    |p| > 0 && ' ' !in p
  }

  /** The longest prefix of `s` that holds no ' '. */
  function TakeWord(s: string): (w: string)
    ensures |w| <= |s| && w == s[..|w|]
    ensures ' ' !in w
    ensures |w| < |s| ==> s[|w|] == ' '
    ensures |s| > 0 && s[0] != ' ' ==> |w| > 0
  {
    if |s| == 0 || s[0] == ' ' then "" else [s[0]] + TakeWord(s[1..])
  }

  /** Splits `s` on the single character ' ' (no other white space) and
      drops the empty pieces. */
  function Split(s: string): (parts: seq<string>)
    ensures forall p | p in parts :: IsToken(p)
    decreases |s|
  {
    if |s| == 0 then []
    else if s[0] == ' ' then Split(s[1..])
    else
      var w := TakeWord(s);
      [w] + Split(s[|w|..])
  }

  /** The pieces in order, with one ' ' between neighbours. */
  function Join(parts: seq<string>): string {
    if |parts| == 0 then ""
    else if |parts| == 1 then parts[0]
    else parts[0] + " " + Join(parts[1..])
  }

  /** All characters of the pieces, in order. */
  function Concat(parts: seq<string>): string {
    if |parts| == 0 then "" else parts[0] + Concat(parts[1..])
  }

  /** `s` with every ' ' taken out. */
  function RemoveSpaces(s: string): (r: string)
    ensures ' ' !in r
  {
    if |s| == 0 then ""
    else if s[0] == ' ' then RemoveSpaces(s[1..])
    else [s[0]] + RemoveSpaces(s[1..])
  }

  /** Appending one more piece appends one ' ' and the piece: the step the
      `first` flag of the join loop takes. */
  lemma {:induction false} JoinSnoc(parts: seq<string>, x: string)
    ensures Join(parts + [x]) == if |parts| == 0 then x else Join(parts) + " " + x
  {
    if |parts| > 1 {
      assert (parts + [x])[1..] == parts[1..] + [x];
      JoinSnoc(parts[1..], x);
    }
  }

  lemma {:induction false} TakeWordOfToken(w: string, rest: string)
    requires ' ' !in w
    requires |rest| == 0 || rest[0] == ' '
    ensures TakeWord(w + rest) == w
  {
    if |w| > 0 {
      assert (w + rest)[1..] == w[1..] + rest;
      TakeWordOfToken(w[1..], rest);
    } else {
      assert w + rest == rest;
    }
  }

  /** Splitting a space-joined list of tokens gives the tokens back. */
  lemma {:induction false} SplitJoin(parts: seq<string>)
    requires forall p | p in parts :: IsToken(p)
    ensures Split(Join(parts)) == parts
  {
    if |parts| == 1 {
      var p := parts[0];
      assert p in parts;
      TakeWordOfToken(p, "");
      assert p + "" == p;
      assert p[|p|..] == "";
    } else if |parts| > 1 {
      var p, tail := parts[0], Join(parts[1..]);
      var s := p + " " + tail;
      assert p in parts;
      assert s == p + (" " + tail) && s[0] == p[0];
      TakeWordOfToken(p, " " + tail);
      assert s[|p|..] == " " + tail;
      assert (" " + tail)[1..] == tail;
      SplitJoin(parts[1..]);
    }
  }

  /** The first token of `s` is also the first token of `s` followed by
      a space and anything else. */
  lemma FirstWordBeforeSpace(s: string, t: string)
    requires |s| > 0 && s[0] != ' '
    ensures TakeWord(s + " " + t) == TakeWord(s)
    ensures (s + " " + t)[|TakeWord(s)|..] == s[|TakeWord(s)|..] + " " + t
  {
    var w := TakeWord(s);
    var rest := s[|w|..];
    assert s == w + rest;
    assert s + " " + t == w + (rest + " " + t);
    TakeWordOfToken(w, rest + " " + t);
  }

  /** A space separates tokens: splitting around a ' ' splits each side on
      its own, whatever spaces either side begins or ends with. */
  lemma {:induction false} SplitSpace(s: string, t: string)
    ensures Split(s + " " + t) == Split(s) + Split(t)
    decreases |s|
  {
    var st := s + " " + t;
    if |s| == 0 {
      assert st[1..] == t;
    } else if s[0] == ' ' {
      assert st[1..] == s[1..] + " " + t;
      SplitSpace(s[1..], t);
    } else {
      var w := TakeWord(s);
      var rest := s[|w|..];
      var rt := rest + " " + t;
      FirstWordBeforeSpace(s, t);
      assert Split(s) == [w] + Split(rest);
      assert Split(st) == [w] + Split(rt);
      if |rest| == 0 {
        assert rt[1..] == t;
        assert Split(rt) == Split(t);
      } else {
        assert rt[1..] == rest[1..] + " " + t;
        assert Split(rt) == Split(rest[1..] + " " + t);
        assert Split(rest) == Split(rest[1..]);
        SplitSpace(rest[1..], t);
      }
    }
  }

  /** Re-splitting a title that was split and joined changes nothing:
      joining the tokens is the title with its spaces normalised. */
  lemma NormalizeIdempotent(s: string)
    ensures Split(Join(Split(s))) == Split(s)
  {
    SplitJoin(Split(s));
  }

  /** A title yields no tokens exactly when it consists of spaces only. */
  lemma {:induction false} SplitEmpty(s: string)
    ensures Split(s) == [] <==> forall i | 0 <= i < |s| :: s[i] == ' '
  {
    if |s| > 0 {
      if s[0] == ' ' {
        SplitEmpty(s[1..]);
        assert forall i | 1 <= i < |s| :: s[i] == s[1..][i - 1];
      }
    }
  }

  lemma {:induction false} RemoveSpacesOfWord(w: string, rest: string)
    requires ' ' !in w
    ensures RemoveSpaces(w + rest) == w + RemoveSpaces(rest)
  {
    if |w| > 0 {
      assert (w + rest)[1..] == w[1..] + rest;
      RemoveSpacesOfWord(w[1..], rest);
    } else {
      assert w + rest == rest;
    }
  }

  /** Splitting loses only spaces: the tokens hold every other character of
      the title, in order. */
  lemma {:induction false} SplitKeepsCharacters(s: string)
    ensures Concat(Split(s)) == RemoveSpaces(s)
    decreases |s|
  {
    if |s| > 0 {
      if s[0] == ' ' {
        SplitKeepsCharacters(s[1..]);
      } else {
        var w := TakeWord(s);
        assert s == w + s[|w|..];
        RemoveSpacesOfWord(w, s[|w|..]);
        SplitKeepsCharacters(s[|w|..]);
      }
    }
  }

  /** Joining at least one token gives a non-empty string. */
  lemma JoinNonEmpty(parts: seq<string>)
    requires |parts| > 0 && IsToken(parts[0])
    ensures |Join(parts)| > 0
  {
  }
}
