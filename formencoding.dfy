/**
 * The query-string layer: a stand-in for `URLSearchParams` and the
 * application/x-www-form-urlencoded serializer and parser of the WHATWG URL
 * Standard, section 5. Pairs are joined with `&`, name and value with `=`;
 * the escape below keeps both separators (and `?`) out of names and values and
 * is undone exactly by the parser.
 */
module FormEncoding {
  import opened Types
  import opened Strings
  import opened Records

  function EscapeChar(c: char): string {
    if c == '%' then "%25"
    else if c == '&' then "%26"
    else if c == '=' then "%3D"
    else if c == '?' then "%3F"
    else [c]
  }

  /** Percent-escapes `%`, `&`, `=` and `?`; the output holds no separator. */
  function Escape(s: string): (r: string)
    ensures '&' !in r && '=' !in r && '?' !in r
  {
    if s == [] then "" else EscapeChar(s[0]) + Escape(s[1..])
  }

  /** Decodes the four escapes; any other `%` stands for itself. */
  function Unescape(s: string): string {
    if s == [] then ""
    else if |s| >= 3 && s[0] == '%' && s[1..3] == "25" then "%" + Unescape(s[3..])
    else if |s| >= 3 && s[0] == '%' && s[1..3] == "26" then "&" + Unescape(s[3..])
    else if |s| >= 3 && s[0] == '%' && s[1..3] == "3D" then "=" + Unescape(s[3..])
    else if |s| >= 3 && s[0] == '%' && s[1..3] == "3F" then "?" + Unescape(s[3..])
    else [s[0]] + Unescape(s[1..])
  }

  lemma {:induction false} UnescapeEscape(s: string)
    ensures Unescape(Escape(s)) == s
  {
    if s != [] {
      UnescapeChar(s[0], Escape(s[1..]));
      UnescapeEscape(s[1..]);
      assert [s[0]] + s[1..] == s;
    }
  }

  /** Unescaping one escaped character gives it back and goes on with the rest. */
  lemma UnescapeChar(c: char, t: string)
    ensures Unescape(EscapeChar(c) + t) == [c] + Unescape(t)
  {
    var w := EscapeChar(c) + t;
    if |EscapeChar(c)| == 3 {
      assert w[1..3] == EscapeChar(c)[1..3] && w[3..] == t;
    } else {
      assert w[1..] == t;
    }
  }

  /** One pair as `name=value`. */
  function EncodePair(p: Entry): (w: string)
    ensures '&' !in w && w != ""
  {
    Escape(p.0) + "=" + Escape(p.1)
  }

  /** One `&`-piece: split at the first `=`, or a name with an empty value. */
  function DecodePair(w: string): Entry {
    match IndexOf(w, '=')
    case None => (Unescape(w), "")
    case Some(i) => (Unescape(w[..i]), Unescape(w[i + 1..]))
  }

  lemma DecodeEncodePair(p: Entry)
    ensures DecodePair(EncodePair(p)) == p
  {
    var w := EncodePair(p);
    IndexOfAfter(Escape(p.0), '=', Escape(p.1));
    assert w[..|Escape(p.0)|] == Escape(p.0) && w[|Escape(p.0)| + 1..] == Escape(p.1);
    UnescapeEscape(p.0);
    UnescapeEscape(p.1);
  }

  /** `URLSearchParams.toString()`. */
  function Serialize(ps: Entries): string {
    Join(seq(|ps|, i requires 0 <= i < |ps| => EncodePair(ps[i])), '&')
  }

  function ParsePieces(ws: seq<string>): Entries {
    if ws == [] then []
    else (if ws[0] == "" then [] else [DecodePair(ws[0])]) + ParsePieces(ws[1..])
  }

  /**
   * `new URLSearchParams(q).entries()`: a leading `?` is dropped, empty pieces
   * are skipped, repeated names are all kept.
   */
  function Parse(q: string): Entries {
    var body := if |q| > 0 && q[0] == '?' then q[1..] else q;
    ParsePieces(Split(body, '&'))
  }

  lemma {:induction false} ParsePiecesEncoded(ps: Entries, ws: seq<string>)
    requires |ws| == |ps| && forall i :: 0 <= i < |ps| ==> ws[i] == EncodePair(ps[i])
    ensures ParsePieces(ws) == ps
  {
    if ps != [] {
      DecodeEncodePair(ps[0]);
      ParsePiecesEncoded(ps[1..], ws[1..]);
    }
  }

  /** The parser reads back exactly the pairs the serializer wrote, in order. */
  lemma ParseSerialize(ps: Entries)
    ensures Parse(Serialize(ps)) == ps
  {
    var ws := seq(|ps|, i requires 0 <= i < |ps| => EncodePair(ps[i]));
    if ps == [] {
      assert Serialize(ps) == "";
      assert Split("", '&') == [""];
      assert ParsePieces([""]) == [] + ParsePieces([]);
    } else {
      var q := Serialize(ps);
      assert q == Join(ws, '&');
      assert q[0] != '?' by {
        if |ws| == 1 {
          assert q == ws[0];
        } else {
          assert q == ws[0] + ['&'] + Join(ws[1..], '&');
        }
        assert q[0] == ws[0][0];
        var e := Escape(ps[0].0);
        assert ws[0] == e + "=" + Escape(ps[0].1);
        if e == [] {
          assert ws[0][0] == '=';
        } else {
          assert ws[0][0] == e[0] && e[0] in e;
        }
      }
      SplitJoin(ws, '&');
      ParsePiecesEncoded(ps, ws);
    }
  }

  /** The `URLSearchParams` accumulator the encoder appends to. */
  class SearchParams {
    var pairs: Entries

    constructor ()
      ensures pairs == []
    {
      pairs := [];
    }

    /** `append(k, v)`: a new pair at the end, even when the name repeats. */
    method Append(k: string, v: string)
      modifies this
      ensures pairs == old(pairs) + [(k, v)]
    {
      pairs := pairs + [(k, v)];
    }

    function ToString(): string
      reads this
    {
      Serialize(pairs)
    }
  }
}
