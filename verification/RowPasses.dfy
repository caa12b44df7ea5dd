/** Which rows the reader can take, value by value. */
module RowPasses {
  import opened Text
  import opened RowText
  import opened RowRoundTrip
  import opened RowFits
  import Lines
  import SubWorker
  import WrittenRows

  /** Between two values: how many characters the reader is going to skip, and how many columns have room. */
  datatype Stand = Stand(skip: nat, room: nat)

  /** Reading the text from there, unless text comes when no column has room. */
  function Pass(s: string, at: Stand): Option<Stand> {
    if s == "" then Some(at)
    else if at.skip > 0 then Pass(s[1..], Stand(at.skip - 1, at.room))
    else if s[0] == '"' then Pass(s[1..], Stand(2, if at.room > 0 then at.room - 1 else 0))
    else if at.room == 0 then None
    else Pass(s[1..], Stand(if s[0] == '\\' then 1 else 0, at.room))
  }

  lemma QuoteRoom(fields: seq<string>, room: nat)
    ensures NoTextFrom([""] + fields, room) <==> NoTextFrom(fields, if room > 0 then room - 1 else 0)
  {
    if NoTextFrom([""] + fields, room) {
      forall k | (if room > 0 then room - 1 else 0) <= k < |fields|
        ensures fields[k] == ""
      {
        assert ([""] + fields)[k + 1] == fields[k];
      }
    }
  }

  lemma CharRoom(c: char, fields: seq<string>, room: nat)
    requires fields != []
    ensures NoTextFrom(Push(c, fields), room) <==> room > 0 && NoTextFrom(fields, room)
  {
    assert Push(c, fields)[0] != "";
    assert forall k :: 1 <= k < |fields| ==> Push(c, fields)[k] == fields[k];
  }

  lemma {:induction false} PassDecides(s: string, at: Stand)
    ensures Pass(s, at).Some? <==> NoTextFrom(Fields(Drop(s, at.skip)), at.room)
    decreases |s|
  {
    if s == "" {
    } else if at.skip > 0 {
      PassDecides(s[1..], Stand(at.skip - 1, at.room));
      assert Drop(s, at.skip) == Drop(s[1..], at.skip - 1);
    } else {
      assert Drop(s, 0) == s && Drop(s[1..], 0) == s[1..];
      assert Drop(s, 2) == Drop(s[1..], 1) && Drop(s, 3) == Drop(s[1..], 2);
      if s[0] == '"' {
        PassDecides(s[1..], Stand(2, if at.room > 0 then at.room - 1 else 0));
        QuoteRoom(Fields(Drop(s, 3)), at.room);
      } else if s[0] == '\\' {
        PassDecides(s[1..], Stand(1, at.room));
        CharRoom(if |s| > 1 then s[1] else '\0', Fields(Drop(s, 2)), at.room);
      } else {
        PassDecides(s[1..], Stand(0, at.room));
        CharRoom(s[0], Fields(s[1..]), at.room);
      }
    }
  }

  lemma {:induction false} PassJoins(a: string, b: string, at: Stand)
    ensures Pass(a + b, at) == match Pass(a, at) case None => None case Some(mid) => Pass(b, mid)
    decreases |a|
  {
    if a == "" {
      assert a + b == b;
    } else {
      assert (a + b)[1..] == a[1..] + b;
      if at.skip > 0 {
        PassJoins(a[1..], b, Stand(at.skip - 1, at.room));
      } else if a[0] == '"' {
        PassJoins(a[1..], b, Stand(2, if at.room > 0 then at.room - 1 else 0));
      } else if at.room > 0 {
        PassJoins(a[1..], b, Stand(if a[0] == '\\' then 1 else 0, at.room));
      }
    }
  }

  // ---------- rows ----------

  /** A value's text up to where the next one begins. */
  function Piece(v: Value, last: bool): string {
    Encode(v) + "\"" + (if last then "" else ",\"")
  }

  function RowPass(vals: seq<Value>, at: Stand): Option<Stand>
    decreases |vals|
  {
    if vals == [] then Some(at)
    else match Pass(Piece(vals[0], |vals| == 1), at)
      case None => None
      case Some(mid) => RowPass(vals[1..], mid)
  }

  lemma {:induction false} RowPassIs(vals: seq<Value>, at: Stand)
    requires vals != []
    ensures Pass(Tail(vals), at) == RowPass(vals, at)
    decreases |vals|
  {
    if |vals| == 1 {
      assert Tail(vals) == Piece(vals[0], true) && vals[1..] == [];
    } else {
      assert Tail(vals) == Piece(vals[0], false) + Tail(vals[1..]);
      PassJoins(Piece(vals[0], false), Tail(vals[1..]), at);
      match Pass(Piece(vals[0], false), at)
      case None =>
      case Some(mid) => RowPassIs(vals[1..], mid);
    }
  }

  /** A row's line brings no text past the last column exactly when its values pass one after the other. */
  lemma RowFitsExactly(vals: seq<Value>)
    requires vals != []
    ensures FitsColumns(Line(vals), |vals|) <==> RowPass(vals, Stand(0, |vals|)).Some?
  {
    assert Drop(Line(vals), 1) == Tail(vals) && Drop(Tail(vals), 0) == Tail(vals);
    PassDecides(Tail(vals), Stand(0, |vals|));
    RowPassIs(vals, Stand(0, |vals|));
  }

  lemma {:induction false} PairedPass(e: string, room: nat)
    requires Paired(e) && room > 0
    ensures Pass(e, Stand(0, room)) == Some(Stand(0, room))
    decreases |e|
  {
    if e == "" {
    } else if e[0] == '\\' {
      assert e[1..][1..] == e[2..];
      PairedPass(e[2..], room);
    } else {
      PairedPass(e[1..], room);
    }
  }

  /** A sound value takes one column and leaves the reader where the next value begins. */
  lemma SoundPass(v: Value, room: nat)
    requires Sound(v) && room > 0
    ensures Pass(Piece(v, false), Stand(0, room)) == Some(Stand(0, room - 1))
  {
    SoundPairs(v);
    PairedPass(Encode(v), room);
    assert Piece(v, false) == Encode(v) + BETWEEN;
    PassJoins(Encode(v), BETWEEN, Stand(0, room));
    BetweenPass(room);
  }

  /** What stands between two values. */
  const BETWEEN := "\",\""

  lemma BetweenPass(room: nat)
    requires room > 0
    ensures Pass(BETWEEN, Stand(0, room)) == Some(Stand(0, room - 1))
  {
    assert BETWEEN[1..] == ",\"" && ",\""[1..] == "\"" && "\""[1..] == "";
    assert Pass("\"", Stand(1, room - 1)) == Some(Stand(0, room - 1));
    assert Pass(",\"", Stand(2, room - 1)) == Some(Stand(0, room - 1));
  }

  /** Sound values at the beginning of a row make no difference: it fits exactly when the rest of it fits. */
  lemma {:induction false} FitsFromFirstUnsound(sound: seq<Value>, rest: seq<Value>)
    requires AllSound(sound) && rest != []
    ensures FitsColumns(Line(sound + rest), |sound| + |rest|) <==> FitsColumns(Line(rest), |rest|)
    decreases |sound|
  {
    if sound == [] {
      assert sound + rest == rest;
    } else {
      var vals, tail := sound + rest, sound[1..] + rest;
      assert vals[0] == sound[0] && vals[1..] == tail && |vals| > 1;
      assert forall i :: 0 <= i < |sound[1..]| ==> sound[1..][i] == sound[i + 1];
      SoundPass(sound[0], |vals|);
      assert RowPass(vals, Stand(0, |vals|)) == RowPass(tail, Stand(0, |tail|));
      RowFitsExactly(vals);
      RowFitsExactly(tail);
      FitsFromFirstUnsound(sound[1..], rest);
    }
  }

  /** The worker can take a written file without line breaks exactly when every row passes. */
  lemma FileFitsExactly(rows: seq<seq<Value>>, width: nat)
    requires WrittenRows.Rectangular(rows, width) && width > 1 && WrittenRows.OneLined(rows)
    ensures SubWorker.LinesFit(Lines.Split(Lines.Unlines(FileLines(rows))), width) <==>
            forall i :: 0 <= i < |rows| ==> RowPass(rows[i], Stand(0, width)).Some?
  {
    WrittenRows.WrittenLines(rows, width);
    forall i | 0 <= i < |rows|
      ensures FitsColumns(FileLines(rows)[i], width) <==> RowPass(rows[i], Stand(0, width)).Some?
    {
      RowFitsExactly(rows[i]);
    }
  }
}
