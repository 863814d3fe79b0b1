/**
 * The hex helpers of ecc.py: `itoh` prints a non-negative integer as
 * upper-case hexadecimal in space-separated blocks of 8 digits counted from
 * the right, the way SEC 2 prints its parameters, and `htoi` reads such a
 * string back with `int(h.replace(" ", ""), 16)`.
 */
module HexText {
  import opened Wrappers
  import opened Arith

  // ---------------------------------------------------------------------
  // Digits

  predicate IsUpperHexDigit(ch: char)
  {
    '0' <= ch <= '9' || 'A' <= ch <= 'F'
  }

  /** The value of one digit as `int(_, 16)` reads it (either case), or `None`. */
  function DigitValue(ch: char): (r: Option<nat>)
    ensures r.Some? ==> r.value < 16
    ensures IsUpperHexDigit(ch) ==> r.Some?
    ensures ch == ' ' ==> r.None?
  {
    if '0' <= ch <= '9' then Some(ch as int - '0' as int)
    else if 'A' <= ch <= 'F' then Some(ch as int - 'A' as int + 10)
    else if 'a' <= ch <= 'f' then Some(ch as int - 'a' as int + 10)
    else None
  }

  /** The upper-case digit for `d < 16`, as `format(_, "x").upper()` writes it. */
  function HexDigit(d: nat): (r: char)
    requires d < 16
    ensures IsUpperHexDigit(r) && DigitValue(r) == Some(d)
  {
    if d < 10 then ('0' as int + d) as char else ('A' as int + d - 10) as char
  }

  /** `format(i, "x").upper()`: the digits of `i`, most significant first. */
  function Hex(i: nat): (r: string)
    ensures |r| >= 1
    ensures forall k :: 0 <= k < |r| ==> IsUpperHexDigit(r[k])
    ensures i == 0 ==> r == "0"
    ensures i > 0 ==> r[0] != '0'
    decreases i
  {
    if i < 16 then [HexDigit(i)] else Hex(i / 16) + [HexDigit(i % 16)]
  }

  predicate AllHex(s: string)
  {
    forall k :: 0 <= k < |s| ==> DigitValue(s[k]).Some?
  }

  /** The number a string of hex digits denotes, most significant digit first. */
  function ValueOf(s: string): nat
    requires AllHex(s)
  {
    if |s| == 0 then 0
    else 16 * ValueOf(s[..|s| - 1]) + DigitValue(s[|s| - 1]).value
  }

  /** Reading back what `Hex` writes gives the number again. */
  lemma {:induction false} ValueOfHex(i: nat)
    ensures AllHex(Hex(i)) && ValueOf(Hex(i)) == i
    decreases i
  {
    var h := Hex(i);
    if i >= 16 {
      ValueOfHex(i / 16);
      assert h[..|h| - 1] == Hex(i / 16);
    } else {
      assert h[..0] == [];
    }
  }

  // ---------------------------------------------------------------------
  // Strings and lists

  /** `s[::-1]`. */
  function Reverse<T>(s: seq<T>): (r: seq<T>)
    ensures |r| == |s|
  {
    if |s| == 0 then [] else Reverse(s[1..]) + [s[0]]
  }

  lemma {:induction false} ReverseAppend<T>(a: seq<T>, b: seq<T>)
    ensures Reverse(a + b) == Reverse(b) + Reverse(a)
    decreases |a|
  {
    if |a| == 0 {
      assert a + b == b;
    } else {
      assert (a + b)[1..] == a[1..] + b;
      ReverseAppend(a[1..], b);
    }
  }

  lemma {:induction false} ReverseReverse<T>(s: seq<T>)
    ensures Reverse(Reverse(s)) == s
    decreases |s|
  {
    if |s| > 0 {
      ReverseAppend(Reverse(s[1..]), [s[0]]);
      ReverseReverse(s[1..]);
      assert Reverse([s[0]]) == [s[0]];
    }
  }

  lemma {:induction false} ReverseIndex<T>(s: seq<T>, k: nat)
    requires k < |s|
    ensures Reverse(s)[k] == s[|s| - 1 - k]
    decreases |s|
  {
    if k < |s| - 1 {
      ReverseIndex(s[1..], k);
    }
  }

  /** `[segment[::-1] for segment in ss]`. */
  function ReverseEach(ss: seq<string>): (r: seq<string>)
    ensures |r| == |ss|
  {
    if |ss| == 0 then [] else [Reverse(ss[0])] + ReverseEach(ss[1..])
  }

  lemma {:induction false} ReverseEachIndex(ss: seq<string>, k: nat)
    requires k < |ss|
    ensures ReverseEach(ss)[k] == Reverse(ss[k])
    decreases |ss|
  {
    if k > 0 {
      ReverseEachIndex(ss[1..], k - 1);
    }
  }

  /** `"".join(ss)`. */
  function Concat(ss: seq<string>): string
  {
    if |ss| == 0 then "" else ss[0] + Concat(ss[1..])
  }

  lemma {:induction false} ConcatAppend(a: seq<string>, b: seq<string>)
    ensures Concat(a + b) == Concat(a) + Concat(b)
    decreases |a|
  {
    if |a| == 0 {
      assert a + b == b;
    } else {
      assert (a + b)[1..] == a[1..] + b;
      ConcatAppend(a[1..], b);
    }
  }

  /** Reversing every block and the list of blocks reverses the whole text. */
  lemma {:induction false} ConcatReverseEach(ss: seq<string>)
    ensures Concat(Reverse(ReverseEach(ss))) == Reverse(Concat(ss))
    decreases |ss|
  {
    if |ss| > 0 {
      var rs := ReverseEach(ss);
      assert rs[1..] == ReverseEach(ss[1..]);
      ConcatAppend(Reverse(rs[1..]), [rs[0]]);
      ConcatReverseEach(ss[1..]);
      assert Concat([rs[0]]) == rs[0];
      ReverseAppend(ss[0], Concat(ss[1..]));
    }
  }

  /** `sep.join(ss)`. */
  function Join(ss: seq<string>, sep: string): string
  {
    if |ss| == 0 then ""
    else if |ss| == 1 then ss[0]
    else ss[0] + sep + Join(ss[1..], sep)
  }

  /**
   * `textwrap.wrap(s, width=w)` for a string without whitespace: the text
   * cut into pieces of `w` characters from its start, the last one shorter.
   */
  function Wrap(s: string, w: pos): seq<string>
    decreases |s|
  {
    if |s| == 0 then []
    else if |s| <= w then [s]
    else [s[..w]] + Wrap(s[w..], w)
  }

  lemma {:induction false} WrapPieces(s: string, w: pos)
    ensures Concat(Wrap(s, w)) == s
    ensures |s| > 0 ==> |Wrap(s, w)| >= 1
    ensures forall k :: 0 <= k < |Wrap(s, w)| - 1 ==> |Wrap(s, w)[k]| == w
    ensures |s| > 0 ==> 1 <= |Wrap(s, w)[|Wrap(s, w)| - 1]| <= w
    decreases |s|
  {
    if |s| > w {
      WrapPieces(s[w..], w);
      var rest := Wrap(s[w..], w);
      assert Wrap(s, w)[1..] == rest;
      assert s[..w] + s[w..] == s;
    } else if |s| > 0 {
      assert Concat(Wrap(s, w)) == s + "";
    }
  }

  // ---------------------------------------------------------------------
  // itoh and htoi

  /** The blocks `itoh` joins with spaces. */
  function Blocks(i: nat): seq<string>
  {
    Reverse(ReverseEach(Wrap(Reverse(Hex(i)), 8)))
  }

  /** `itoh(i)` for `i >= 0`. */
  function Itoh(i: nat): string
  {
    Join(Blocks(i), " ")
  }

  /**
   * The blocks of `itoh(i)` spell `format(i, "x").upper()`; every block has
   * 8 digits except the leftmost, which has 1 to 8.
   */
  lemma BlocksOfHex(i: nat)
    ensures Concat(Blocks(i)) == Hex(i)
    ensures |Blocks(i)| >= 1 && 1 <= |Blocks(i)[0]| <= 8
    ensures forall k :: 1 <= k < |Blocks(i)| ==> |Blocks(i)[k]| == 8
  {
    var r := Reverse(Hex(i));
    var pieces := Wrap(r, 8);
    WrapPieces(r, 8);
    ConcatReverseEach(pieces);
    ReverseReverse(Hex(i));
    ReversedPieces(pieces, 8);
  }

  /** Reversing the pieces of a wrapped text puts the short piece first. */
  lemma ReversedPieces(pieces: seq<string>, w: pos)
    requires |pieces| >= 1 && 1 <= |pieces[|pieces| - 1]| <= w
    requires forall k :: 0 <= k < |pieces| - 1 ==> |pieces[k]| == w
    ensures var bs := Reverse(ReverseEach(pieces));
            1 <= |bs[0]| <= w && forall k :: 1 <= k < |bs| ==> |bs[k]| == w
  {
    var bs := Reverse(ReverseEach(pieces));
    forall k | 0 <= k < |bs|
      ensures |bs[k]| == |pieces[|pieces| - 1 - k]|
    {
      ReverseIndex(ReverseEach(pieces), k);
      ReverseEachIndex(pieces, |pieces| - 1 - k);
    }
  }

  /** `h.replace(" ", "")`. */
  function RemoveSpaces(s: string): (r: string)
    ensures ' ' !in r
  {
    if |s| == 0 then ""
    else (if s[0] == ' ' then "" else [s[0]]) + RemoveSpaces(s[1..])
  }

  lemma {:induction false} RemoveSpacesAppend(a: string, b: string)
    ensures RemoveSpaces(a + b) == RemoveSpaces(a) + RemoveSpaces(b)
    decreases |a|
  {
    if |a| == 0 {
      assert a + b == b;
    } else {
      var head: string := if a[0] == ' ' then "" else [a[0]];
      assert (a + b)[0] == a[0] && (a + b)[1..] == a[1..] + b;
      assert RemoveSpaces(a + b) == head + RemoveSpaces(a[1..] + b);
      RemoveSpacesAppend(a[1..], b);
      assert RemoveSpaces(a) == head + RemoveSpaces(a[1..]);
    }
  }

  lemma {:induction false} RemoveSpacesKeeps(s: string)
    requires ' ' !in s
    ensures RemoveSpaces(s) == s
    decreases |s|
  {
    if |s| > 0 {
      RemoveSpacesKeeps(s[1..]);
    }
  }

  /** `int(h.replace(" ", ""), 16)`, or `None` where Python raises `ValueError`. */
  function Htoi(h: string): Option<nat>
  {
    var t := RemoveSpaces(h);
    if |t| > 0 && AllHex(t) then Some(ValueOf(t)) else None
  }

  /** Every character that is not a space is a hex digit. */
  predicate DigitsOrSpaces(s: string)
  {
    forall k :: 0 <= k < |s| && s[k] != ' ' ==> DigitValue(s[k]).Some?
  }

  predicate OnlySpaces(s: string)
  {
    forall k :: 0 <= k < |s| ==> s[k] == ' '
  }

  lemma AllHexAppend(a: string, b: string)
    ensures AllHex(a + b) <==> AllHex(a) && AllHex(b)
  {
    if AllHex(a) && AllHex(b) {
      forall k | 0 <= k < |a + b| ensures DigitValue((a + b)[k]).Some? {
        if k >= |a| {
          assert (a + b)[k] == b[k - |a|];
        }
      }
    }
    if AllHex(a + b) {
      forall k | 0 <= k < |a| ensures DigitValue(a[k]).Some? {
        assert (a + b)[k] == a[k];
      }
      forall k | 0 <= k < |b| ensures DigitValue(b[k]).Some? {
        assert (a + b)[|a| + k] == b[k];
      }
    }
  }

  /** Removing the spaces leaves a string of digits exactly when every other character is a digit. */
  lemma {:induction false} AllHexWithoutSpaces(s: string)
    ensures AllHex(RemoveSpaces(s)) <==> DigitsOrSpaces(s)
    ensures |RemoveSpaces(s)| == 0 <==> OnlySpaces(s)
    decreases |s|
  {
    if |s| > 0 {
      AllHexWithoutSpaces(s[1..]);
      var head: string := if s[0] == ' ' then "" else [s[0]];
      assert RemoveSpaces(s) == head + RemoveSpaces(s[1..]);
      AllHexAppend(head, RemoveSpaces(s[1..]));
      assert DigitsOrSpaces(s) <==> AllHex(head) && DigitsOrSpaces(s[1..]) by {
        if AllHex(head) && DigitsOrSpaces(s[1..]) {
          forall k | 0 <= k < |s| && s[k] != ' ' ensures DigitValue(s[k]).Some? {
            if k > 0 {
              assert s[k] == s[1..][k - 1];
            }
          }
        }
      }
      assert OnlySpaces(s) <==> |head| == 0 && OnlySpaces(s[1..]) by {
        if |head| == 0 && OnlySpaces(s[1..]) {
          forall k | 0 <= k < |s| ensures s[k] == ' ' {
            if k > 0 {
              assert s[k] == s[1..][k - 1];
            }
          }
        }
      }
    }
  }

  /**
   * `htoi` fails exactly on a string of spaces only (the empty string too)
   * or on a character that is neither a space nor a hex digit.
   */
  lemma HtoiDefined(h: string)
    ensures Htoi(h).None? <==>
              OnlySpaces(h) || exists k :: 0 <= k < |h| && h[k] != ' ' && DigitValue(h[k]).None?
  {
    AllHexWithoutSpaces(h);
  }

  /** `htoi` ignores spaces wherever they are. */
  lemma HtoiIgnoresSpaces(a: string, b: string)
    ensures Htoi(a + " " + b) == Htoi(a + b)
  {
    RemoveSpacesAppend(a + " ", b);
    RemoveSpacesAppend(a, " ");
    RemoveSpacesAppend(a, b);
    assert RemoveSpaces(" ") == "";
    assert RemoveSpaces(a) + "" == RemoveSpaces(a);
  }

  /** Joining space-free blocks with spaces and removing the spaces concatenates the blocks. */
  lemma {:induction false} RemoveSpacesJoin(ss: seq<string>)
    requires forall k :: 0 <= k < |ss| ==> ' ' !in ss[k]
    ensures RemoveSpaces(Join(ss, " ")) == Concat(ss)
    decreases |ss|
  {
    if |ss| == 1 {
      RemoveSpacesKeeps(ss[0]);
      assert Concat(ss) == ss[0] + "";
    } else if |ss| > 1 {
      RemoveSpacesJoin(ss[1..]);
      RemoveSpacesKeeps(ss[0]);
      RemoveSpacesAppend(ss[0] + " ", Join(ss[1..], " "));
      RemoveSpacesAppend(ss[0], " ");
      assert RemoveSpaces(" ") == "";
      assert ss[0] + "" == ss[0];
    }
  }

  lemma {:induction false} ConcatWithoutSpace(ss: seq<string>)
    requires ' ' !in Concat(ss)
    ensures forall k :: 0 <= k < |ss| ==> ' ' !in ss[k]
    decreases |ss|
  {
    if |ss| > 0 {
      ConcatWithoutSpace(ss[1..]);
      forall k | 1 <= k < |ss| ensures ' ' !in ss[k] {
        assert ss[k] == ss[1..][k - 1];
      }
    }
  }

  /** `htoi(itoh(i)) == i` for every `i >= 0`. */
  lemma HtoiItoh(i: nat)
    ensures Htoi(Itoh(i)) == Some(i)
  {
    var bs := Blocks(i);
    BlocksOfHex(i);
    ValueOfHex(i);
    assert ' ' !in Hex(i);
    ConcatWithoutSpace(bs);
    RemoveSpacesJoin(bs);
  }
}
