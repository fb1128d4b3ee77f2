/** The filter panel of the recommended-courses page: the topic choices it offers, the updates its
    buttons make to the filter record, and the keyword chips on each course card. */
module FilterPanel {
  import opened Wrappers
  import opened Strings
  import opened Seqs
  import opened CourseFilter

  /** The panel offers at most this many topics. */
  const MaxTopics: nat := 15

  /** The trimmed comma-pieces of one course's keyword string (`(Keyword || '').split(',').map(trim)`). */
  function KeywordPieces(keyword: Option<string>): (r: seq<string>)
    ensures |r| >= 1
    ensures forall k :: 0 <= k < |r| ==> Trim(r[k]) == r[k] && ',' !in r[k]
  {
    var pieces := Split(keyword.GetOr(""), ',');
    var r := seq(|pieces|, k requires 0 <= k < |pieces| => Trim(pieces[k]));
    forall k | 0 <= k < |r| ensures Trim(r[k]) == r[k] && ',' !in r[k] {
      TrimIdempotent(pieces[k]);
      TrimKeepsCharacters(pieces[k], ',');
    }
    r
  }

  /** The trimmed pieces of every course, in list order (the `flatMap`). */
  function AllPieces(courses: seq<Course>): (r: seq<string>)
    ensures forall k :: 0 <= k < |r| ==> Trim(r[k]) == r[k] && ',' !in r[k]
  {
    if courses == [] then [] else KeywordPieces(courses[0].keyword) + AllPieces(courses[1..])
  }

  /** The non-empty pieces (`.filter(Boolean)`). */
  function AllTopics(courses: seq<Course>): (r: seq<string>)
    ensures forall t :: t in r ==> t != "" && Trim(t) == t && ',' !in t
  {
    var pieces := AllPieces(courses);
    var r := Select(pieces, t => t != "");
    forall t | t in r ensures t != "" && Trim(t) == t && ',' !in t {
      var k :| 0 <= k < |r| && r[k] == t;
      var j :| 0 <= j < |pieces| && pieces[j] == t;
    }
    r
  }

  /** A piece is among all pieces exactly when it is a piece of some course's keyword string. */
  lemma {:induction false} AllPiecesMembership(courses: seq<Course>, t: string)
    ensures t in AllPieces(courses) <==> exists i :: 0 <= i < |courses| && t in KeywordPieces(courses[i].keyword)
    decreases |courses|
  {
    if courses != [] {
      var rest := courses[1..];
      AllPiecesMembership(rest, t);
      assert AllPieces(courses) == KeywordPieces(courses[0].keyword) + AllPieces(rest);
      if t in AllPieces(rest) {
        var i :| 0 <= i < |rest| && t in KeywordPieces(rest[i].keyword);
        assert rest[i] == courses[i + 1];
      }
      if exists i :: 0 <= i < |courses| && t in KeywordPieces(courses[i].keyword) {
        var i :| 0 <= i < |courses| && t in KeywordPieces(courses[i].keyword);
        if i > 0 {
          assert courses[i] == rest[i - 1];
        }
      }
    }
  }

  /** The topics are exactly the non-empty keyword pieces of the courses. */
  lemma AllTopicsMembership(courses: seq<Course>, t: string)
    ensures t in AllTopics(courses) <==> t != "" && exists i :: 0 <= i < |courses| && t in KeywordPieces(courses[i].keyword)
  {
    AllPiecesMembership(courses, t);
    var pieces := AllPieces(courses);
    if t in AllTopics(courses) {
      var k :| 0 <= k < |AllTopics(courses)| && AllTopics(courses)[k] == t;
    }
    if t != "" && t in pieces {
      var j :| 0 <= j < |pieces| && pieces[j] == t;
    }
  }

  /** `getUniqueTopics`: the first fifteen distinct topics in first-seen order; each is a non-empty,
      trimmed piece of some course's keyword string, and fewer than fifteen means every topic is
      listed. */
  function UniqueTopics(courses: seq<Course>): (r: seq<string>)
    ensures |r| <= MaxTopics && Distinct(r)
    ensures forall t :: t in r ==> t in AllTopics(courses) && t != "" && Trim(t) == t && ',' !in t
    ensures forall i, j :: 0 <= i < j < |r| ==>
              FirstIndex(AllTopics(courses), r[i]) < FirstIndex(AllTopics(courses), r[j])
    ensures |r| < MaxTopics ==> forall t :: t in AllTopics(courses) ==> t in r
  {
    FirstDistinct(AllTopics(courses), MaxTopics)
  }

  /** `toggleTopicFilter`: append an absent topic, or drop every occurrence of a present one. */
  function ToggleTopic(f: Filters, topic: string): (g: Filters)
    ensures g.level == f.level && g.rating == f.rating && g.duration == f.duration
    ensures topic in g.topics <==> topic !in f.topics
    ensures forall t :: t != topic ==> (t in g.topics <==> t in f.topics)
    ensures topic !in f.topics ==> g.topics == f.topics + [topic]
    ensures topic in f.topics ==> IsSubsequence(g.topics, f.topics)
  {
    if topic in f.topics then
      var kept := Select(f.topics, t => t != topic);
      SelectSubsequence(f.topics, t => t != topic);
      assert forall t :: t != topic && t in f.topics ==> t in kept by {
        forall t | t != topic && t in f.topics ensures t in kept {
          var k :| 0 <= k < |f.topics| && f.topics[k] == t;
        }
      }
      f.(topics := kept)
    else
      f.(topics := f.topics + [topic])
  }

  /** Toggling a topic twice restores which topics are selected; starting from an unselected topic
      it restores the filter record exactly. */
  lemma ToggleTopicTwice(f: Filters, topic: string)
    ensures forall t :: t in ToggleTopic(ToggleTopic(f, topic), topic).topics <==> t in f.topics
    ensures topic !in f.topics ==> ToggleTopic(ToggleTopic(f, topic), topic) == f
  {
    if topic !in f.topics {
      var p := (t: string) => t != topic;
      SelectAppend(f.topics, [topic], p);
      SelectKeepsAll(f.topics, p);
      assert [topic][1..] == [];
      assert Select([topic], p) == [];
    }
  }

  /** The duration buttons: clicking the selected bucket clears it, any other sets it. */
  function ToggleDuration(f: Filters, bucket: string): (g: Filters)
    ensures g.level == f.level && g.rating == f.rating && g.topics == f.topics
    ensures f.duration == bucket ==> g.duration == ""
    ensures f.duration != bucket ==> g.duration == bucket
  {
    f.(duration := if f.duration == bucket then "" else bucket)
  }

  /** Clicking a bucket twice returns to the starting record when no other bucket was selected. */
  lemma ToggleDurationTwice(f: Filters, bucket: string)
    requires bucket != "" && (f.duration == "" || f.duration == bucket)
    ensures ToggleDuration(ToggleDuration(f, bucket), bucket) == f
  {
  }

  /** `resetFilters`: the empty criteria and an empty search box. */
  function ResetFilters(): (r: (Filters, string))
    ensures r.0.level == "" && r.0.rating == 0.0 && r.0.duration == "" && r.0.topics == [] && r.1 == ""
  {
    (NoFilters, "")
  }

  /** After a reset the whole list is shown. */
  lemma ResetShowsEverything(courses: seq<Course>)
    ensures Filtered(courses, ResetFilters().1, ResetFilters().0) == courses
  {
    FilteredWithoutCriteria(courses, "", NoFilters);
  }

  /** What a course card shows for its keywords: the first three trimmed comma-pieces, and how many
      more there are (the `+N` badge, absent when zero). */
  datatype Chips = Chips(shown: seq<string>, more: nat)

  /** The keyword chips of a course card; a missing or empty keyword string shows nothing. */
  function KeywordChips(keyword: Option<string>): (r: Chips)
    ensures |r.shown| <= 3
    ensures keyword.None? || keyword == Some("") ==> r == Chips([], 0)
    ensures keyword.Some? && keyword.value != "" ==>
              var pieces := Split(keyword.value, ',');
              && |r.shown| + r.more == |pieces|
              && (r.more > 0 ==> |r.shown| == 3)
              && forall k :: 0 <= k < |r.shown| ==> r.shown[k] == Trim(pieces[k])
  {
    match keyword
    case None => Chips([], 0)
    case Some(k) =>
      if k == "" then Chips([], 0)
      else
        var pieces := Split(k, ',');
        var first := Take(pieces, 3);
        Chips(seq(|first|, i requires 0 <= i < |first| => Trim(first[i])),
              if |pieces| > 3 then |pieces| - 3 else 0)
  }
}
