/** The number of distinct non-empty comma-separated tokens of a string (`new_count_distinct`). */
module CountDistinct {
  import Text

  /** The distinct non-empty pieces. */
  function Tokens(pieces: seq<string>): set<string> {
    set p | p in pieces && p != []
  }

  lemma {:induction false} TokensBound(pieces: seq<string>)
    ensures |Tokens(pieces)| <= |pieces|
  {
    if pieces != [] {
      var init := pieces[..|pieces| - 1];
      TokensBound(init);
      var last := pieces[|pieces| - 1];
      assert pieces == init + [last];
      var extra: set<string> := if last == [] then {} else {last};
      assert Tokens(pieces) == Tokens(init) + extra;
      assert |Tokens(init) + extra| <= |Tokens(init)| + |extra|;
    }
  }

  /**
    Lines 10-16: split on `,`, drop the empty pieces, count the distinct rest.
    There are at most as many as there are pieces, one more than the commas.
  */
  function NewCountDistinct(input: string): (r: nat)
    ensures r <= Text.CountChar(input, ',') + 1
  {
    TokensBound(Text.Split(input, ','));
    |Tokens(Text.Split(input, ','))|
  }

  /** Every character of a piece comes from the input. */
  lemma {:induction false} SplitChars(s: string, sep: char)
    ensures forall i, x :: 0 <= i < |Text.Split(s, sep)| && x in Text.Split(s, sep)[i] ==> x in s
  {
    if s != [] {
      SplitChars(s[1..], sep);
      var rest := Text.Split(s[1..], sep);
      var parts := Text.Split(s, sep);
      forall i, x | 0 <= i < |parts| && x in parts[i]
        ensures x in s
      {
        if s[0] == sep {
          if i > 0 {
            assert parts[i] == rest[i - 1];
          }
        } else if i == 0 {
          assert parts[0] == [s[0]] + rest[0];
        } else {
          assert parts[i] == rest[i];
        }
        assert s == [s[0]] + s[1..];
      }
    }
  }

  /** Joining empty pieces gives only separators. */
  lemma {:induction false} JoinEmpties(pieces: seq<string>, sep: char)
    requires forall i :: 0 <= i < |pieces| ==> pieces[i] == []
    ensures forall i :: 0 <= i < |Text.Join(pieces, [sep])| ==> Text.Join(pieces, [sep])[i] == sep
  {
    if |pieces| > 1 {
      JoinEmpties(pieces[1..], sep);
      assert Text.Join(pieces, [sep]) == [sep] + Text.Join(pieces[1..], [sep]);
    }
  }

  /** A non-empty string holds its first character. */
  lemma HasFirst(p: string)
    ensures p == [] || p[0] in p
  {
  }

  /** The count is zero exactly when the input holds nothing but commas; in particular for "". */
  lemma CountZero(input: string)
    ensures NewCountDistinct(input) == 0 <==> forall i :: 0 <= i < |input| ==> input[i] == ','
  {
    var pieces := Text.Split(input, ',');
    if forall i :: 0 <= i < |input| ==> input[i] == ',' {
      SplitChars(input, ',');
      forall p | p in pieces
        ensures p == []
      {
        assert forall x :: x in p ==> x in input && x != ',';
        HasFirst(p);
      }
      assert Tokens(pieces) == {};
    } else if NewCountDistinct(input) == 0 {
      forall i | 0 <= i < |pieces|
        ensures pieces[i] == []
      {
        var q := pieces[i];
        assert q in pieces;
        assert q == [] || q in Tokens(pieces);
      }
      JoinEmpties(pieces, ',');
      Text.JoinSplit(input, ',');
    }
  }

  /** Joining comma-free pieces and counting gives the number of distinct non-empty pieces. */
  lemma JoinedCount(pieces: seq<string>)
    requires |pieces| >= 1 && forall i :: 0 <= i < |pieces| ==> ',' !in pieces[i]
    ensures NewCountDistinct(Text.Join(pieces, [','])) == |Tokens(pieces)|
  {
    Text.SplitJoin(pieces, ',');
  }

  /** Reordering or repeating the pieces leaves the count unchanged. */
  lemma ReorderRepeat(pieces: seq<string>, others: seq<string>)
    requires |pieces| >= 1 && forall i :: 0 <= i < |pieces| ==> ',' !in pieces[i]
    requires |others| >= 1 && forall i :: 0 <= i < |others| ==> ',' !in others[i]
    requires forall p :: p in pieces <==> p in others
    ensures NewCountDistinct(Text.Join(pieces, [','])) == NewCountDistinct(Text.Join(others, [',']))
  {
    JoinedCount(pieces);
    JoinedCount(others);
    assert Tokens(pieces) == Tokens(others);
  }

  /** Pieces are compared exactly: "a" and " a" are two tokens. */
  lemma NoTrimming()
    ensures NewCountDistinct("a, a") == 2
  {
    var pieces := ["a", " a"];
    assert Text.Join(pieces[1..], [',']) == " a";
    assert Text.Join(pieces, [',']) == "a, a";
    JoinedCount(pieces);
    assert Tokens(pieces) == {"a", " a"};
  }
}
