/** The product editor keeps a product's feature list as one comma-separated
    text field: it is filled by joining the features with ", " and read back
    by splitting on ",", trimming each piece and dropping the empty ones. */
module Features {
  import Seqs
  import Text

  /** A feature the text field can carry unchanged: not empty, no surrounding
      whitespace and no comma. */
  predicate WellFormed(feature: string)
  {
    feature != [] && Text.Trimmed(feature) && ',' !in feature
  }

  predicate AllWellFormed(features: seq<string>)
  {
    forall i :: 0 <= i < |features| ==> WellFormed(features[i])
  }

  /** The text field shown when an existing product is edited: empty for no
      features, otherwise starting with the first feature and two characters
      longer per gap than the features together. */
  function Format(features: seq<string>): (field: string)
    ensures |features| == 0 ==> field == []
    ensures |features| >= 1 ==> features[0] <= field
    ensures |features| >= 1 ==> |field| == Text.TotalLength(features) + 2 * (|features| - 1)
  {
    Text.Join(features, ", ")
  }

  /** The field of comma-free features holds exactly one comma per gap. */
  lemma FormatCommaCount(features: seq<string>)
    requires |features| >= 1
    requires forall i :: 0 <= i < |features| ==> ',' !in features[i]
    ensures multiset(Format(features))[','] == |features| - 1
  {
    Text.JoinCount(features, ", ");
    Text.CountInAbsent(features, ',');
    assert multiset(", ")[','] == 1;
  }

  /** The trimmed, non-empty pieces of a list of comma-free strings, in
      order: map trim, then filter out the empty strings, fused. */
  function TrimAndDrop(pieces: seq<string>): (features: seq<string>)
    requires forall i :: 0 <= i < |pieces| ==> ',' !in pieces[i]
    ensures AllWellFormed(features)
  {
    if pieces == [] then []
    else
      var t := Text.Trim(pieces[0]);
      var rest := TrimAndDrop(pieces[1..]);
      if t == [] then rest
      else
        TrimmedPieceWellFormed(pieces[0]);
        WellFormedCons(t, rest);
        [t] + rest
  }

  /** A non-blank comma-free piece trims to a well-formed feature. */
  lemma TrimmedPieceWellFormed(piece: string)
    requires ',' !in piece && Text.Trim(piece) != []
    ensures WellFormed(Text.Trim(piece))
  {
  }

  lemma WellFormedCons(feature: string, rest: seq<string>)
    requires WellFormed(feature) && AllWellFormed(rest)
    ensures AllWellFormed([feature] + rest)
  {
  }

  /** The fused form agrees with mapping trim over the pieces and then
      filtering out the empty strings. */
  lemma {:induction false} TrimAndDropIsFilterMap(pieces: seq<string>)
    requires forall i :: 0 <= i < |pieces| ==> ',' !in pieces[i]
    ensures TrimAndDrop(pieces) == Seqs.Filter(Seqs.Map(pieces, Text.Trim), (f: string) => f != [])
  {
    if pieces != [] {
      TrimAndDropIsFilterMap(pieces[1..]);
      var trimmed := Seqs.Map(pieces, Text.Trim);
      assert trimmed[0] == Text.Trim(pieces[0]);
      assert trimmed[1..] == Seqs.Map(pieces[1..], Text.Trim);
    }
  }

  /** The feature list read back from the text field when the form is
      submitted. */
  function Parse(field: string): (features: seq<string>)
    ensures AllWellFormed(features)
  {
    TrimAndDrop(Text.Split(field, ','))
  }

  /** Parse is the submit handler's pipeline: split on ",", trim every
      piece, keep the non-empty ones. */
  lemma ParseIsPipeline(field: string)
    ensures Parse(field) == Seqs.Filter(Seqs.Map(Text.Split(field, ','), Text.Trim), (f: string) => f != [])
  {
    TrimAndDropIsFilterMap(Text.Split(field, ','));
  }

  /** A field holding no comma yields at most one feature: its trimmed text. */
  lemma ParseSingle(field: string)
    requires ',' !in field
    ensures Parse(field) == if Text.Trim(field) == [] then [] else [Text.Trim(field)]
  {
    Text.SplitWithoutSeparator(field, ',');
    assert [field][1..] == [];
    assert TrimAndDrop([field][1..]) == [];
  }

  /** Trimming and dropping works piece by piece. */
  lemma TrimAndDropCons(piece: string, rest: seq<string>)
    requires ',' !in piece
    requires forall i :: 0 <= i < |rest| ==> ',' !in rest[i]
    ensures TrimAndDrop([piece] + rest)
            == (if Text.Trim(piece) == [] then [] else [Text.Trim(piece)]) + TrimAndDrop(rest)
  {
    var pieces := [piece] + rest;
    assert pieces[0] == piece && pieces[1..] == rest;
  }

  /** The first comma of the field ends the first feature. */
  lemma ParseAtFirstComma(head: string, tail: string)
    requires ',' !in head
    ensures Parse(head + [','] + tail)
            == (if Text.Trim(head) == [] then [] else [Text.Trim(head)]) + Parse(tail)
  {
    Text.SplitAtFirstSeparator(head, ',', tail);
    TrimAndDropCons(head, Text.Split(tail, ','));
  }

  /** One step of the round trip: the first formatted feature comes back
      first, and the rest of the text starts with the space of ", ". */
  lemma ParseFormatStep(w: string, features: seq<string>)
    requires forall i :: 0 <= i < |w| ==> Text.IsWhitespace(w[i])
    requires |features| >= 2 && WellFormed(features[0])
    ensures Parse(w + Format(features)) == [features[0]] + Parse(" " + Format(features[1..]))
  {
    assert ',' !in w by {
      assert !Text.IsWhitespace(',');
    }
    var head := w + features[0];
    var tail := " " + Format(features[1..]);
    FormatAtFirstComma(w, features);
    assert ',' !in head;
    ParseAtFirstComma(head, tail);
    Text.TrimLeadingWhitespace(w, features[0]);
  }

  /** The formatted field of two or more features, cut at its first comma. */
  lemma FormatAtFirstComma(w: string, features: seq<string>)
    requires |features| >= 2
    ensures w + Format(features) == (w + features[0]) + [','] + (" " + Format(features[1..]))
  {
    FormatCons(features);
    CutAtComma(w, features[0], Format(features[1..]));
  }

  /** Two or more features are formatted as the first, ", ", and the rest. */
  lemma FormatCons(features: seq<string>)
    requires |features| >= 2
    ensures Format(features) == features[0] + ", " + Format(features[1..])
  {
  }

  /** Regrouping a ", "-joined pair around its comma. */
  lemma CutAtComma(w: string, a: string, b: string)
    ensures w + (a + ", " + b) == (w + a) + [','] + (" " + b)
  {
    assert ", " == [','] + " ";
  }

  /** Whitespace alone parses to no feature. */
  lemma ParseBlank(w: string)
    requires forall i :: 0 <= i < |w| ==> Text.IsWhitespace(w[i])
    ensures Parse(w) == []
  {
    assert ',' !in w by {
      assert !Text.IsWhitespace(',');
    }
    ParseSingle(w);
  }

  /** A single well-formed feature after whitespace parses to itself. */
  lemma ParseOne(w: string, feature: string)
    requires forall i :: 0 <= i < |w| ==> Text.IsWhitespace(w[i])
    requires WellFormed(feature)
    ensures Parse(w + feature) == [feature]
  {
    assert ',' !in w by {
      assert !Text.IsWhitespace(',');
    }
    assert ',' !in w + feature;
    ParseSingle(w + feature);
    Text.TrimLeadingWhitespace(w, feature);
  }

  /** The space that follows each comma of the formatted field is whitespace. */
  lemma SpaceIsBlank()
    ensures forall i :: 0 <= i < |" "| ==> Text.IsWhitespace(" "[i])
  {
    assert " "[0] == ' ';
  }

  /** Parsing after optional leading whitespace recovers a list of
      well-formed features from its formatted text. */
  lemma {:induction false} ParseFormatWithLead(w: string, features: seq<string>)
    requires forall i :: 0 <= i < |w| ==> Text.IsWhitespace(w[i])
    requires AllWellFormed(features)
    ensures Parse(w + Format(features)) == features
    decreases |features|
  {
    if |features| == 0 {
      assert w + Format(features) == w + [];
      assert w + [] == w;
      ParseBlank(w);
    } else if |features| == 1 {
      assert Format(features) == features[0];
      ParseOne(w, features[0]);
    } else {
      ParseFormatStep(w, features);
      AllWellFormedTail(features);
      SpaceIsBlank();
      ParseFormatWithLead(" ", features[1..]);
      assert [features[0]] + features[1..] == features;
    }
  }

  lemma AllWellFormedTail(features: seq<string>)
    requires features != [] && AllWellFormed(features)
    ensures AllWellFormed(features[1..])
  {
    forall i | 0 <= i < |features[1..]|
      ensures WellFormed(features[1..][i])
    {
      assert features[1..][i] == features[i + 1];
    }
  }

  /** Round trip of the editor: formatting well-formed features into the text
      field and parsing the field back gives the same list. */
  lemma ParseFormat(features: seq<string>)
    requires AllWellFormed(features)
    ensures Parse(Format(features)) == features
  {
    var field := Format(features);
    assert [] + field == field;
    ParseFormatWithLead([], features);
  }

  /** The round trip, stated for every list of features. */
  lemma ParseFormatIfWellFormed(features: seq<string>)
    ensures AllWellFormed(features) ==> Parse(Format(features)) == features
  {
    if AllWellFormed(features) {
      ParseFormat(features);
    }
  }

  /** Parsing is idempotent through the text field: formatting a parsed list
      and parsing it again gives the same list. */
  lemma ParseStable(field: string)
    ensures Parse(Format(Parse(field))) == Parse(field)
  {
    ParseFormat(Parse(field));
  }
}
