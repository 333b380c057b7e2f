/**
 Worked answers of the `/generate_sql` extraction on concrete model replies,
 and of the `/execute_sql` sanitizer on a concrete query.
 Each case is first proved for a parameter fixed by its precondition, so that
 the facts about its characters are proved in small steps and handed to the
 general lemmas of `Extractor` and `Sanitizer` without unfolding the whole
 literal, and then restated on the literal itself.
 */
module Scenarios {
  import opened Ascii
  import opened Extractor
  import opened Sanitizer

  /** A completion whose first choice carries `content`. */
  function Reply(content: string): Completion {
    Completion(Some([Choice(Some(Message(Some(content))))]))
  }

  // ---------------------------------------------------------------------------
  // A fenced answer with prose before it

  const Chatty: string := "Sure! ```sql\nSELECT * FROM users;\n```"

  lemma ChattyFences(s: string)
    requires s == Chatty
    ensures FenceAt(s, 6) && FenceAt(s, 34) && AfterTag(s, 6) == 12
  {
  }

  lemma ChattyNoEarlierFence(s: string)
    requires s == Chatty
    ensures forall k: nat :: k < 6 ==> !FenceAt(s, k)
  {
  }

  lemma ChattyNoInnerFence(s: string)
    requires s == Chatty
    ensures forall k: nat :: 12 <= k < 34 ==> !FenceAt(s, k)
  {
  }

  lemma ChattyQuery(s: string)
    requires s == Chatty
    ensures s[13..33] == "SELECT * FROM users;"
  {
    var x := s[13..33];
    var q := "SELECT * FROM users;";
    assert |x| == |q|;
    forall i | 0 <= i < |q| ensures x[i] == q[i] {
      assert x[i] == s[13 + i];
    }
  }

  lemma ChattyInner(s: string)
    requires s == Chatty
    ensures Trim(s[12..34]) == "SELECT * FROM users;"
  {
    TrimBetween(s, 12, 13, 33, 34);
    ChattyQuery(s);
  }

  /** The prose and the fences are dropped and only the query is answered. */
  lemma ChattyAnswer(s: string)
    requires s == Chatty
    ensures GenerateSql(Reply(s)) == "SELECT * FROM users;"
  {
    ChattyFences(s);
    ChattyNoEarlierFence(s);
    ChattyNoInnerFence(s);
    ChattyInner(s);
    FencedBlockAnswer(s, 6, 34);
    ContentIsExtracted(Reply(s).choices.value, s);
  }

  /** The same, stated on the constant. */
  lemma ChattyReply()
    ensures GenerateSql(Reply(Chatty)) == "SELECT * FROM users;"
  {
    ChattyAnswer(Chatty);
  }

  // ---------------------------------------------------------------------------
  // A `sqlite` tag: only its first three letters are the optional `sql`

  const Sqlite: string := "```sqlite\nSELECT 1\n```"

  lemma SqliteFences(s: string)
    requires s == Sqlite
    ensures FenceAt(s, 0) && FenceAt(s, 19) && AfterTag(s, 0) == 6
    ensures forall k: nat :: 6 <= k < 19 ==> !FenceAt(s, k)
  {
  }

  lemma SqliteQuery(s: string)
    requires s == Sqlite
    ensures s[6..18] == "ite\nSELECT 1"
  {
    var x := s[6..18];
    var q := "ite\nSELECT 1";
    assert |x| == |q|;
    forall i | 0 <= i < |q| ensures x[i] == q[i] {
      assert x[i] == s[6 + i];
    }
  }

  /** The rest of the tag stays in the answer. */
  lemma SqliteAnswer(s: string)
    requires s == Sqlite
    ensures GenerateSql(Reply(s)) == "ite\nSELECT 1"
  {
    SqliteFences(s);
    TrimBetween(s, 6, 6, 18, 19);
    SqliteQuery(s);
    FencedBlockAnswer(s, 0, 19);
    ContentIsExtracted(Reply(s).choices.value, s);
  }

  lemma SqliteReply()
    ensures GenerateSql(Reply(Sqlite)) == "ite\nSELECT 1"
  {
    SqliteAnswer(Sqlite);
  }

  // ---------------------------------------------------------------------------
  // Fences around nothing: the whole reply is answered

  lemma EmptySqlFences(s: string)
    requires s == "```sql```"
    ensures FenceAt(s, 0) && FenceAt(s, 6) && AfterTag(s, 0) == 6
  {
  }

  /** "```sql```" has an empty group, so the reply itself is answered. */
  lemma EmptySqlAnswer(s: string)
    requires s == "```sql```"
    ensures GenerateSql(Reply(s)) == s
  {
    EmptySqlFences(s);
    FencedBlockAnswer(s, 0, 6);
    TrimKeeps(s);
    ContentIsExtracted(Reply(s).choices.value, s);
  }

  lemma EmptySqlReply()
    ensures GenerateSql(Reply("```sql```")) == "```sql```"
  {
    EmptySqlAnswer("```sql```");
  }

  lemma BlankFences(s: string)
    requires s == "```   ```"
    ensures FenceAt(s, 0) && FenceAt(s, 6) && AfterTag(s, 0) == 3
    ensures forall k: nat :: 3 <= k < 6 ==> !FenceAt(s, k)
    ensures forall p :: 3 <= p < 6 ==> IsSpace(s[p])
  {
  }

  /** "```   ```" has a group of white space only, so the reply itself is answered. */
  lemma BlankAnswer(s: string)
    requires s == "```   ```"
    ensures GenerateSql(Reply(s)) == s
  {
    BlankFences(s);
    TrimBetween(s, 3, 6, 6, 6);
    FencedBlockAnswer(s, 0, 6);
    TrimKeeps(s);
    ContentIsExtracted(Reply(s).choices.value, s);
  }

  lemma BlankFencesReply()
    ensures GenerateSql(Reply("```   ```")) == "```   ```"
  {
    BlankAnswer("```   ```");
  }

  /** A bare query is answered as it is. */
  lemma BareAnswer(s: string)
    requires s == "SELECT 1;"
    ensures GenerateSql(Reply(s)) == s
  {
    NoBacktickAnswer(s);
    TrimKeeps(s);
    ContentIsExtracted(Reply(s).choices.value, s);
  }

  lemma BareReply()
    ensures GenerateSql(Reply("SELECT 1;")) == "SELECT 1;"
  {
    BareAnswer("SELECT 1;");
  }

  /** A reply of white space only is not the fixed sentence: it is answered with the empty text. */
  lemma BlankReply(s: string)
    requires s != [] && AllSpace(s)
    ensures GenerateSql(Reply(s)) == []
  {
    assert '`' !in s by {
      forall i | 0 <= i < |s| ensures s[i] != '`' {
        assert IsSpace(s[i]);
      }
    }
    NoBacktickAnswer(s);
    TrimUnique(s, [], []);
    assert s + [] + [] == s;
    ContentIsExtracted(Reply(s).choices.value, s);
  }

  // ---------------------------------------------------------------------------
  // The sanitizer on a query that selects a database first

  lemma UseMydbSplit(s: string)
    requires s == "USE mydb;\nSELECT * FROM t;"
    ensures s == "USE mydb;" + [LineFeed] + "SELECT * FROM t;"
    ensures LineFeed !in "USE mydb;" && LineFeed !in "SELECT * FROM t;"
  {
    var r := "USE mydb;" + [LineFeed] + "SELECT * FROM t;";
    assert |s| == |r|;
    forall i | 0 <= i < |s| ensures s[i] == r[i] {
      if i < 9 {
        assert r[i] == "USE mydb;"[i];
      } else if i > 9 {
        assert r[i] == "SELECT * FROM t;"[i - 10];
      }
    }
  }

  /** "USE mydb;\nSELECT * FROM t;" is sent to the database as "SELECT * FROM t;". */
  lemma UseMydbSanitized(s: string)
    requires s == "USE mydb;\nSELECT * FROM t;"
    ensures Sanitize(s) == "SELECT * FROM t;"
  {
    UseMydbSplit(s);
    DropsUseMydb();
    KeepsSelect();
    SanitizeDropsLeadingUse("USE mydb;", "SELECT * FROM t;");
  }

  lemma UseMydbQuery()
    ensures Sanitize("USE mydb;\nSELECT * FROM t;") == "SELECT * FROM t;"
  {
    UseMydbSanitized("USE mydb;\nSELECT * FROM t;");
  }
}
