/** A column that an ALTER puts first: the written lines do not say so. */
module DdlPlaces {
  import opened Text
  import opened Schema
  import opened Statements
  import opened Ddl
  import DdlQuotes

  function FirstItem(c: ColumnDef): AlterItem {
    AlterItem.AddColumn([c], None, true)
  }

  lemma SamePlaces<T>(s: seq<T>, x: T)
    ensures s + [x] == [x] + s <==> forall k :: 0 <= k < |s| ==> s[k] == x
  {
    if s + [x] == [x] + s {
      forall k: nat | k < |s|
        ensures s[k] == x
      {
        FirstOnward(s, x, k);
      }
    }
  }

  lemma {:induction false} FirstOnward<T>(s: seq<T>, x: T, k: nat)
    requires s + [x] == [x] + s && k < |s|
    ensures s[k] == x
  {
    assert (s + [x])[k] == ([x] + s)[k];
    if k > 0 {
      FirstOnward(s, x, k - 1);
    }
  }

  /**
   A column that the statement puts first becomes the last, and every other column stands one place before the one it
   has in the database. The two orders are the same only if every column of the table equals the new one.
   */
  lemma AddedFirst(t: Table, c: ColumnDef)
    requires HasUpd(t)
    ensures var s := Meaning(Alter([FirstItem(c)])).value;
            && Fits(t, s) && Fill(t, s).Ok?
            && Fill(t, s).value.cols == t.cols + [s.col.Column()]
            && (Fill(t, s).value.cols == [s.col.Column()] + t.cols
                <==> forall k :: 0 <= k < |t.cols| ==> t.cols[k] == s.col.Column())
  {
    var s := Meaning(Alter([FirstItem(c)])).value;
    SamePlaces(t.cols, s.col.Column());
    DdlQuotes.AddColCols(t, s.col.Column(), None);
    assert InsertAt(t.cols, |t.cols|, s.col.Column()) == t.cols + [s.col.Column()];
  }
}
