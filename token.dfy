/**
 * Callback tokens. Each format button carries the text `<tag>|<id>`; the callback
 * handler splits it on '|' and unpacks exactly two parts, so any other number of
 * separators makes the unpacking raise.
 */
module Token {
  import opened Wrappers

  const Separator: char := '|'
  const Mp3Tag: string := "mp3"
  const Mp4Tag: string := "mp4"

  /** Number of occurrences of `c` in `s`. */
  function Count(s: string, c: char): (n: nat)
    ensures n == 0 <==> c !in s
    ensures n <= |s|
  {
    if s == [] then 0 else (if s[0] == c then 1 else 0) + Count(s[1..], c)
  }

  lemma {:induction false} CountAppend(a: string, b: string, c: char)
    ensures Count(a + b, c) == Count(a, c) + Count(b, c)
  {
    if a == [] {
      assert a + b == b;
    } else {
      assert (a + b)[1..] == a[1..] + b;
      CountAppend(a[1..], b, c);
    }
  }

  /** Python's `sep.join(parts)`. */
  function Join(parts: seq<string>, sep: char): string {
    if parts == [] then ""
    else if |parts| == 1 then parts[0]
    else parts[0] + [sep] + Join(parts[1..], sep)
  }

  /**
   * Python's `s.split(sep)` with an explicit one-character separator: the pieces
   * between separators, always at least one (SplitShape: one more than there are
   * separators, none holding the separator; JoinSplit: joined back they give `s`).
   */
  function Split(s: string, sep: char): (parts: seq<string>)
    ensures |parts| >= 1
    decreases |s|
  {
    if s == [] then [""]
    else
      var rest := Split(s[1..], sep);
      if s[0] == sep then [""] + rest
      else [[s[0]] + rest[0]] + rest[1..]
  }

  /** A split has one more piece than the text has separators, and no piece holds the separator. */
  lemma {:induction false} SplitShape(s: string, sep: char)
    ensures |Split(s, sep)| == Count(s, sep) + 1
    ensures forall k :: 0 <= k < |Split(s, sep)| ==> sep !in Split(s, sep)[k]
    decreases |s|
  {
    if s != [] {
      SplitShape(s[1..], sep);
      var rest := Split(s[1..], sep);
      if s[0] != sep {
        var parts := Split(s, sep);
        assert parts[0] == [s[0]] + rest[0];
        assert forall k :: 1 <= k < |parts| ==> parts[k] == rest[k];
      }
    }
  }

  /** Joining a piece in front of at least one more adds it and one separator. */
  lemma JoinCons(p: string, ps: seq<string>, sep: char)
    requires ps != []
    ensures Join([p] + ps, sep) == p + [sep] + Join(ps, sep)
  {
    assert ([p] + ps)[1..] == ps;
  }

  /** Gluing text onto the first piece glues it onto the joined text. */
  lemma JoinPrepend(x: string, parts: seq<string>, sep: char)
    requires parts != []
    ensures Join([x + parts[0]] + parts[1..], sep) == x + Join(parts, sep)
  {
    if |parts| == 1 {
      assert [x + parts[0]] + parts[1..] == [x + parts[0]];
    } else {
      JoinCons(x + parts[0], parts[1..], sep);
      JoinCons(parts[0], parts[1..], sep);
      assert parts == [parts[0]] + parts[1..];
      assert x + parts[0] + [sep] + Join(parts[1..], sep) == x + (parts[0] + [sep] + Join(parts[1..], sep));
    }
  }

  /** Joining the pieces of a split with the separator gives back the original text. */
  lemma {:induction false} JoinSplit(s: string, sep: char)
    ensures Join(Split(s, sep), sep) == s
    decreases |s|
  {
    if s != [] {
      var rest := Split(s[1..], sep);
      JoinSplit(s[1..], sep);
      assert s == [s[0]] + s[1..];
      if s[0] == sep {
        JoinCons("", rest, sep);
      } else {
        JoinPrepend([s[0]], rest, sep);
      }
    }
  }

  /** Splitting text that starts with `c`: a separator opens a new empty piece, any other character joins the first. */
  lemma SplitCons(c: char, u: string, sep: char)
    ensures Split([c] + u, sep) ==
      if c == sep then [""] + Split(u, sep) else [[c] + Split(u, sep)[0]] + Split(u, sep)[1..]
  {
    assert ([c] + u)[0] == c && ([c] + u)[1..] == u;
  }

  /** Splitting a separator-free first piece followed by anything keeps that piece in front. */
  lemma {:induction false} SplitPrefix(a: string, t: string, sep: char)
    requires sep !in a
    ensures Split(a + t, sep) == [a + Split(t, sep)[0]] + Split(t, sep)[1..]
    decreases |a|
  {
    var st := Split(t, sep);
    if a == [] {
      assert a + t == t && a + st[0] == st[0];
      assert st == [st[0]] + st[1..];
    } else {
      var u := a[1..] + t;
      assert sep !in a[1..] by {
        assert forall i | 0 <= i < |a| - 1 :: a[1..][i] == a[i + 1];
      }
      SplitPrefix(a[1..], t, sep);
      assert Split(a + t, sep) == [[a[0]] + Split(u, sep)[0]] + Split(u, sep)[1..] by {
        assert a + t == [a[0]] + u;
        SplitCons(a[0], u, sep);
      }
      assert [a[0]] + (a[1..] + st[0]) == a + st[0] by {
        assert [a[0]] + a[1..] == a;
      }
    }
  }

  /** Split undoes Join whenever no piece holds the separator. */
  lemma {:induction false} SplitJoin(parts: seq<string>, sep: char)
    requires |parts| >= 1
    requires forall k :: 0 <= k < |parts| ==> sep !in parts[k]
    ensures Split(Join(parts, sep), sep) == parts
    decreases |parts|
  {
    if |parts| == 1 {
      SplitPrefix(parts[0], "", sep);
      assert parts[0] + "" == parts[0];
    } else {
      var tail := [sep] + Join(parts[1..], sep);
      assert Join(parts, sep) == parts[0] + tail;
      SplitPrefix(parts[0], tail, sep);
      SplitJoin(parts[1..], sep);
      assert tail[1..] == Join(parts[1..], sep);
      assert Split(tail, sep) == [""] + parts[1..];
      assert parts[0] + "" == parts[0];
    }
  }

  /** The button payload for format `tag` of request `id` (the f-string `f"{tag}|{id}"`). */
  function Encode(tag: string, id: string): (data: string)
    ensures Count(data, Separator) == Count(tag, Separator) + 1 + Count(id, Separator)
  {
    CountAppend(tag, [Separator] + id, Separator);
    CountAppend([Separator], id, Separator);
    assert Count([Separator], Separator) == 1;
    assert tag + [Separator] + id == tag + ([Separator] + id);
    tag + [Separator] + id
  }

  /**
   * `tipo, pedido_id = data.split('|')`: succeeds exactly when `data` holds one
   * separator, and then yields the separator-free text on either side of it.
   */
  function Parse(data: string): (r: Option<(string, string)>)
    ensures r.Some? <==> Count(data, Separator) == 1
    ensures r.Some? ==> Separator !in r.value.0 && Separator !in r.value.1
    ensures r.Some? ==> data == Encode(r.value.0, r.value.1)
  {
    var parts := Split(data, Separator);
    SplitShape(data, Separator);
    if |parts| == 2 then
      JoinSplit(data, Separator);
      assert Join(parts, Separator) == parts[0] + [Separator] + parts[1];
      Some((parts[0], parts[1]))
    else None
  }

  /** Parsing a button payload gives back its tag and id, when neither holds a separator. */
  lemma ParseEncode(tag: string, id: string)
    requires Separator !in tag && Separator !in id
    ensures Parse(Encode(tag, id)) == Some((tag, id))
  {
    assert Join([tag, id], Separator) == Encode(tag, id);
    SplitJoin([tag, id], Separator);
  }

  /** A payload with no separator, or with more than one, fails to unpack. */
  lemma ParseFails(data: string)
    requires Count(data, Separator) != 1
    ensures Parse(data) == None
  {
  }

  /** Payloads that parse are exactly the encodings of separator-free pairs. */
  lemma ParseOnlyEncodings(data: string, tag: string, id: string)
    ensures Parse(data) == Some((tag, id)) <==>
      Separator !in tag && Separator !in id && data == Encode(tag, id)
  {
    if Separator !in tag && Separator !in id && data == Encode(tag, id) {
      ParseEncode(tag, id);
    }
  }

  /** A lower-case hexadecimal digit, as printed by `str(uuid.uuid4())`. */
  predicate IsLowerHex(c: char) {
    '0' <= c <= '9' || 'a' <= c <= 'f'
  }

  /** The shape of a request id: the first eight characters of a printed UUID. */
  function IsRequestId(id: string): (b: bool)
    ensures b ==> |id| == 8 && Separator !in id
  {
    assert |id| == 8 && (forall i :: 0 <= i < |id| ==> IsLowerHex(id[i])) ==> forall i :: 0 <= i < |id| ==> id[i] != Separator;
    |id| == 8 && forall i :: 0 <= i < |id| ==> IsLowerHex(id[i])
  }

  /** Both button payloads of an id without a separator parse back to their tag and that id. */
  lemma ButtonsParse(id: string)
    requires Separator !in id
    ensures Parse(Encode(Mp3Tag, id)) == Some((Mp3Tag, id))
    ensures Parse(Encode(Mp4Tag, id)) == Some((Mp4Tag, id))
  {
    ParseEncode(Mp3Tag, id);
    ParseEncode(Mp4Tag, id);
  }

  /** Both buttons of a request parse back to their tag and that request's id. */
  lemma RequestButtonsParse(id: string)
    requires IsRequestId(id)
    ensures Parse(Encode(Mp3Tag, id)) == Some((Mp3Tag, id))
    ensures Parse(Encode(Mp4Tag, id)) == Some((Mp4Tag, id))
  {
    ButtonsParse(id);
  }
}
