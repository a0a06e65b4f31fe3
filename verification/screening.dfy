/** The pure body of `screen_resumes` in backend/main.py: check the job
    description, turn uploads into candidates, score each candidate
    against the job description, stable-sort by score and renumber.
    Document parsing, the embedding model, the norm and `round(·, 4)`
    are supplied as functions (Services). */
module Screening {
  import opened Basics
  import opened PythonStr
  import opened DocumentProcessor
  import opened SimilarityCalculator
  import opened StableSort
  import opened ReplaceSpec

  /** An uploaded file: its name and its content, opaque to this model. */
  datatype Upload<C> = Upload(filename: string, content: C)

  /** The entries of `resume_data`. */
  datatype Candidate = Candidate(name: string, text: string, filename: string)

  /** `RankedResume` of backend/models.py. */
  datatype RankedResume = RankedResume(rank: nat, candidateName: string, similarityScore: real, filename: string)

  /** A ranked record with its rank dropped. */
  datatype Entry = Entry(candidateName: string, similarityScore: real, filename: string)

  /** Either a `RankingResult` or the JSON error returned with a status code. */
  datatype Response =
    | Success(totalResumes: nat, rankedResumes: seq<RankedResume>, status: string)
    | Failure(statusCode: nat, error: string)

  /** The collaborators the endpoint calls: the PDF/DOCX text extractor,
      the sentence embedder, the vector norm and `round(·, 4)`. */
  datatype Services<-C> = Services(
    parse: (Format, C) -> Option<string>,
    embed: string -> Vector,
    norm: Vector -> real,
    round: real -> real)

  const EmptyDescriptionError := "Job description cannot be empty"
  const NoResumesError := "No valid resumes provided"

  // ---------------------------------------------------------------------
  // Step 2: uploads to candidates

  function Suffix(format: Format): string
  {
    match format
    case Pdf => ".pdf"
    case Docx => ".docx"
  }

  /** `filename.replace('.pdf', '')` (or `.docx`): every occurrence of
      the suffix is removed, not only the final one. */
  function CandidateName(filename: string, format: Format): (name: string)
    ensures |name| <= |filename|
    ensures name == filename <==> NoOccurrence(filename, Suffix(format))
    ensures EndsWith(filename, Suffix(format)) ==> |name| < |filename|
  {
    RemoveAllUnchanged(filename, Suffix(format));
    RemoveAllShortens(filename, Suffix(format));
    EndsWithOccurs(filename, Suffix(format));
    RemoveAll(filename, Suffix(format))
  }

  /** One iteration of the upload loop: skipped when the name ends in
      neither suffix, or when extraction fails or yields empty text. */
  function ReadCandidate<C>(upload: Upload<C>, parse: (Format, C) -> Option<string>): (c: Option<Candidate>)
    ensures c.Some? <==>
      && Dispatch(upload.filename).Some?
      && Extract(Dispatch(upload.filename).value, upload.content, parse).Some?
      && Extract(Dispatch(upload.filename).value, upload.content, parse).value != ""
    ensures c.Some? ==>
      && c.value.filename == upload.filename
      && c.value.name == CandidateName(upload.filename, Dispatch(upload.filename).value)
      && c.value.text == Extract(Dispatch(upload.filename).value, upload.content, parse).value
      && c.value.text != ""
      && Canonical(c.value.text)
  {
    match Dispatch(upload.filename)
    case None => None
    case Some(format) =>
      var text := Extract(format, upload.content, parse);
      if text.Some? && text.value != "" then
        Some(Candidate(CandidateName(upload.filename, format), text.value, upload.filename))
      else None
  }

  /** `resume_data`: the candidates read from the uploads, in upload order. */
  function Candidates<C>(uploads: seq<Upload<C>>, parse: (Format, C) -> Option<string>): (cs: seq<Candidate>)
    ensures |cs| <= |uploads|
    ensures forall i :: 0 <= i < |cs| ==> cs[i].text != "" && Canonical(cs[i].text)
  {
    if |uploads| == 0 then []
    else
      var first := ReadOne(uploads[0], parse);
      var rest := Candidates(uploads[1..], parse);
      UsableAppend(first, rest);
      first + rest
  }

  /** Candidates with non-empty cleaned text stay so when lists are joined. */
  lemma UsableAppend(a: seq<Candidate>, b: seq<Candidate>)
    requires forall i :: 0 <= i < |a| ==> a[i].text != "" && Canonical(a[i].text)
    requires forall i :: 0 <= i < |b| ==> b[i].text != "" && Canonical(b[i].text)
    ensures forall i :: 0 <= i < |a + b| ==> (a + b)[i].text != "" && Canonical((a + b)[i].text)
  {
    forall i | 0 <= i < |a + b| ensures (a + b)[i].text != "" && Canonical((a + b)[i].text) {
      if i < |a| {
        assert (a + b)[i] == a[i];
      } else {
        assert (a + b)[i] == b[i - |a|];
      }
    }
  }

  /** Reading candidates distributes over concatenation of upload lists:
      each upload is read on its own. */
  lemma {:induction false} CandidatesAppend<C>(a: seq<Upload<C>>, b: seq<Upload<C>>, parse: (Format, C) -> Option<string>)
    ensures Candidates(a + b, parse) == Candidates(a, parse) + Candidates(b, parse)
    decreases |a|
  {
    if |a| > 0 {
      var u, t := a[0], a[1..];
      assert a + b == [u] + (t + b);
      assert a == [u] + t;
      CandidatesAppend(t, b, parse);
      CandidatesCons(u, t + b, parse);
      CandidatesCons(u, t, parse);
      AssociateCandidates(ReadOne(u, parse), Candidates(t, parse), Candidates(b, parse));
    } else {
      assert a + b == b;
    }
  }

  /** The candidate one upload contributes, if any. */
  function ReadOne<C>(u: Upload<C>, parse: (Format, C) -> Option<string>): (r: seq<Candidate>)
    ensures |r| <= 1
    ensures forall i :: 0 <= i < |r| ==> r[i].text != "" && Canonical(r[i].text)
  {
    if ReadCandidate(u, parse).Some? then [ReadCandidate(u, parse).value] else []
  }

  lemma AssociateCandidates(x: seq<Candidate>, y: seq<Candidate>, z: seq<Candidate>)
    ensures x + (y + z) == x + y + z
  {
  }

  lemma CandidatesCons<C>(u: Upload<C>, t: seq<Upload<C>>, parse: (Format, C) -> Option<string>)
    ensures Candidates([u] + t, parse) == ReadOne(u, parse) + Candidates(t, parse)
  {
    assert ([u] + t)[1..] == t;
  }

  /** Every candidate comes from some upload that reads to it. */
  lemma {:induction false} CandidatesFromUploads<C>(uploads: seq<Upload<C>>, parse: (Format, C) -> Option<string>)
    ensures forall c :: c in Candidates(uploads, parse) ==>
      exists i :: 0 <= i < |uploads| && ReadCandidate(uploads[i], parse) == Some(c)
    decreases |uploads|
  {
    if |uploads| > 0 {
      CandidatesFromUploads(uploads[1..], parse);
      forall c | c in Candidates(uploads, parse)
        ensures exists i :: 0 <= i < |uploads| && ReadCandidate(uploads[i], parse) == Some(c)
      {
        var head := ReadCandidate(uploads[0], parse);
        if head == Some(c) {
          assert ReadCandidate(uploads[0], parse) == Some(c);
        } else {
          assert c in Candidates(uploads[1..], parse);
          var i :| 0 <= i < |uploads[1..]| && ReadCandidate(uploads[1..][i], parse) == Some(c);
          assert uploads[i + 1] == uploads[1..][i];
        }
      }
    }
  }

  /** An upload that reads to a candidate is not lost. */
  lemma UploadsToCandidates<C>(uploads: seq<Upload<C>>, parse: (Format, C) -> Option<string>, i: nat)
    requires i < |uploads| && ReadCandidate(uploads[i], parse).Some?
    ensures ReadCandidate(uploads[i], parse).value in Candidates(uploads, parse)
  {
    CandidatesSplitAt(uploads, parse, i);
    assert ReadOne(uploads[i], parse) == [ReadCandidate(uploads[i], parse).value];
  }

  /** The candidates of a list are those before position i, then what
      upload i contributes, then those after it. */
  lemma CandidatesSplitAt<C>(uploads: seq<Upload<C>>, parse: (Format, C) -> Option<string>, i: nat)
    requires i < |uploads|
    ensures Candidates(uploads, parse)
      == Candidates(uploads[..i], parse) + (ReadOne(uploads[i], parse) + Candidates(uploads[i + 1..], parse))
  {
    var u, before, after := uploads[i], uploads[..i], uploads[i + 1..];
    assert uploads == before + ([u] + after);
    CandidatesAppend(before, [u] + after, parse);
    CandidatesCons(u, after, parse);
  }

  /** `.pdf` and `.docx` cannot overlap themselves. */
  lemma SuffixBorderFree(format: Format)
    ensures |Suffix(format)| > 0 && BorderFree(Suffix(format))
  {
    var pat := Suffix(format);
    forall k | 0 < k < |pat| ensures pat[..k] != pat[|pat| - k..] {
      assert pat[..k][0] == '.';
      assert pat[|pat| - k..][0] != '.';
    }
  }

  /** The candidate name is the filename with every character that lies
      inside an occurrence of the suffix deleted, and every other character
      kept in order. */
  lemma CandidateNameDeletesSuffixes(filename: string, format: Format)
    ensures CandidateName(filename, format) == Uncovered(filename, Suffix(format), 0)
  {
    SuffixBorderFree(format);
    RemoveAllDeletesOccurrences(filename, Suffix(format));
  }

  /** When the suffix occurs only at the end, the candidate name is the
      filename without it. */
  lemma CandidateNameOfSuffix(stem: string, format: Format)
    requires NoOccurrence(stem, Suffix(format))
    ensures CandidateName(stem + Suffix(format), format) == stem
  {
    SuffixBorderFree(format);
    RemoveAllAppend(stem, Suffix(format));
    RemoveAllNoOccurrence(stem, Suffix(format));
  }

  /** `replace` also deletes an inner `.pdf`: the name of
      `cv.pdf.old.pdf` is `cv.old`. */
  lemma CandidateNameInnerOccurrence()
    ensures CandidateName("cv.pdf.old.pdf", Pdf) == "cv.old"
  {
    OldHasNoPdf();
    InnerSuffixRemoved('c', 'v', ".old", Pdf);
    assert ['c', 'v'] + ".pdf" + ".old" + ".pdf" == "cv.pdf.old.pdf";
    assert ['c', 'v'] + ".old" == "cv.old";
  }

  lemma OldHasNoPdf()
    ensures NoOccurrence(".old", ".pdf")
  {
    assert !OccursAt(".old", ".pdf", 0) by { assert ".old"[1] == 'o'; }
  }

  /** A suffix between a two-character prefix and a stem is deleted like
      the final one. */
  lemma InnerSuffixRemoved(x: char, y: char, stem: string, format: Format)
    requires x != '.' && y != '.'
    requires NoOccurrence(stem, Suffix(format))
    ensures CandidateName([x, y] + Suffix(format) + stem + Suffix(format), format) == [x, y] + stem
  {
    var pat := Suffix(format);
    var t := pat + (stem + pat);
    assert [x, y] + pat + stem + pat == [x] + ([y] + t);
    RemoveTwoHeads(x, y, t, pat);
    InnerSuffixTail(stem, format);
    assert [x] + ([y] + stem) == [x, y] + stem;
  }

  lemma RemoveTwoHeads(x: char, y: char, t: string, pat: string)
    requires |pat| > 0 && x != pat[0] && y != pat[0]
    ensures RemoveAll([x] + ([y] + t), pat) == [x] + ([y] + RemoveAll(t, pat))
  {
    RemoveAllKeepHead(x, [y] + t, pat);
    RemoveAllKeepHead(y, t, pat);
  }

  lemma InnerSuffixTail(stem: string, format: Format)
    requires NoOccurrence(stem, Suffix(format))
    ensures RemoveAll(Suffix(format) + (stem + Suffix(format)), Suffix(format)) == stem
  {
    RemoveAllDropHead(stem + Suffix(format), Suffix(format));
    CandidateNameOfSuffix(stem, format);
  }

  // ---------------------------------------------------------------------
  // Steps 3-5: scoring, sorting and re-ranking

  /** `round(cosine_similarity(jd_embedding, embed(text)), 4)`. */
  function Score<C>(jd: string, c: Candidate, svc: Services<C>): real
  {
    svc.round(CosineSimilarity(svc.embed(jd), svc.embed(c.text), svc.norm))
  }

  function ScoreKey(r: RankedResume): real
  {
    r.similarityScore
  }

  function EntryScore(e: Entry): real
  {
    e.similarityScore
  }

  function DropRank(r: RankedResume): Entry
  {
    Entry(r.candidateName, r.similarityScore, r.filename)
  }

  function Entries(rs: seq<RankedResume>): (es: seq<Entry>)
    ensures |es| == |rs|
  {
    MapSeq(DropRank, rs)
  }

  /** The records built in step 4, in candidate order, with the
      provisional rank i + 1. */
  function Provisional<C>(jd: string, cs: seq<Candidate>, svc: Services<C>): (rs: seq<RankedResume>)
    ensures |rs| == |cs|
    ensures forall i :: 0 <= i < |cs| ==>
      rs[i] == RankedResume(i + 1, cs[i].name, Score(jd, cs[i], svc), cs[i].filename)
  {
    seq(|cs|, i requires 0 <= i < |cs| => RankedResume(i + 1, cs[i].name, Score(jd, cs[i], svc), cs[i].filename))
  }

  /** The candidates paired with their scores, in upload order. */
  function ScoredEntries<C>(jd: string, cs: seq<Candidate>, svc: Services<C>): (es: seq<Entry>)
    ensures |es| == |cs|
    ensures forall i :: 0 <= i < |cs| ==> es[i] == Entry(cs[i].name, Score(jd, cs[i], svc), cs[i].filename)
  {
    seq(|cs|, i requires 0 <= i < |cs| => Entry(cs[i].name, Score(jd, cs[i], svc), cs[i].filename))
  }

  /** The loop after the sort: the record at position idx gets rank idx + 1. */
  function Rerank(rs: seq<RankedResume>): (r: seq<RankedResume>)
    ensures |r| == |rs|
    ensures forall i :: 0 <= i < |r| ==> r[i].rank == i + 1
    ensures Entries(r) == Entries(rs)
  {
    seq(|rs|, i requires 0 <= i < |rs| => rs[i].(rank := i + 1))
  }

  /** The ranking the endpoint returns for a non-empty candidate list. */
  function RankCandidates<C>(jd: string, cs: seq<Candidate>, svc: Services<C>): (ranked: seq<RankedResume>)
    ensures |ranked| == |cs|
    ensures forall i :: 0 <= i < |ranked| ==> ranked[i].rank == i + 1
    ensures Entries(ranked) == SortDesc(ScoredEntries(jd, cs, svc), EntryScore)
  {
    var provisional := Provisional(jd, cs, svc);
    var sorted := SortDesc(provisional, ScoreKey);
    MapSortDesc(DropRank, provisional, ScoreKey, EntryScore);
    assert Entries(provisional) == ScoredEntries(jd, cs, svc);
    Rerank(sorted)
  }

  /** `screen_resumes`, apart from its catch-all 500 response. */
  function ScreenResumes<C>(jobDescription: string, uploads: seq<Upload<C>>, svc: Services<C>): (r: Response)
    ensures r == Failure(400, EmptyDescriptionError) <==> IsBlank(jobDescription)
    ensures r == Failure(400, NoResumesError)
            <==> !IsBlank(jobDescription) && Candidates(uploads, svc.parse) == []
    ensures r.Success? <==> !IsBlank(jobDescription) && Candidates(uploads, svc.parse) != []
    ensures r.Success? ==>
      && r.status == "success"
      && r.totalResumes == |r.rankedResumes| == |Candidates(uploads, svc.parse)|
      && r.rankedResumes == RankCandidates(Strip(jobDescription), Candidates(uploads, svc.parse), svc)
  {
    var jdText := Strip(jobDescription);
    if jdText == "" then Failure(400, EmptyDescriptionError)
    else
      var resumeData := Candidates(uploads, svc.parse);
      if resumeData == [] then Failure(400, NoResumesError)
      else
        var ranked := RankCandidates(jdText, resumeData, svc);
        Success(|ranked|, ranked, "success")
  }

  // ---------------------------------------------------------------------
  // Properties of a successful response

  /** The ranking is a permutation of the scored candidates, in
      non-increasing score order, with equal scores in upload order and
      ranks 1..n; and it is the only arrangement with these properties. */
  lemma RankingIsStableSort<C>(jd: string, cs: seq<Candidate>, svc: Services<C>)
    ensures var es := Entries(RankCandidates(jd, cs, svc));
      && multiset(es) == multiset(ScoredEntries(jd, cs, svc))
      && SortedDesc(es, EntryScore)
      && SameTies(es, ScoredEntries(jd, cs, svc), EntryScore)
    ensures forall es ::
      (SortedDesc(es, EntryScore) && SameTies(es, ScoredEntries(jd, cs, svc), EntryScore))
      ==> es == Entries(RankCandidates(jd, cs, svc))
  {
    forall es | SortedDesc(es, EntryScore) && SameTies(es, ScoredEntries(jd, cs, svc), EntryScore)
      ensures es == Entries(RankCandidates(jd, cs, svc))
    {
      SortDescUnique(ScoredEntries(jd, cs, svc), es, EntryScore);
    }
  }

  /** Every returned record pairs a candidate's name with that same
      candidate's filename and score. */
  lemma RankedRecordsAligned<C>(jd: string, cs: seq<Candidate>, svc: Services<C>)
    ensures forall r :: r in RankCandidates(jd, cs, svc) ==>
      exists c :: c in cs && r.candidateName == c.name && r.filename == c.filename
                  && r.similarityScore == Score(jd, c, svc)
  {
    var ranked := RankCandidates(jd, cs, svc);
    var es := Entries(ranked);
    var scored := ScoredEntries(jd, cs, svc);
    forall r | r in ranked
      ensures exists c :: c in cs && r.candidateName == c.name && r.filename == c.filename
                          && r.similarityScore == Score(jd, c, svc)
    {
      var i :| 0 <= i < |ranked| && ranked[i] == r;
      assert es[i] == DropRank(r);
      assert DropRank(r) in multiset(es);
      assert DropRank(r) in multiset(scored);
      var j :| 0 <= j < |scored| && scored[j] == DropRank(r);
      assert cs[j] in cs;
    }
  }

  /** Scores never increase down the returned list. */
  lemma RankedScoresDescending<C>(jd: string, cs: seq<Candidate>, svc: Services<C>)
    ensures forall i, j :: 0 <= i < j < |RankCandidates(jd, cs, svc)| ==>
      RankCandidates(jd, cs, svc)[i].similarityScore >= RankCandidates(jd, cs, svc)[j].similarityScore
  {
    var ranked := RankCandidates(jd, cs, svc);
    var es := Entries(ranked);
    RankingIsStableSort(jd, cs, svc);
    forall i, j | 0 <= i < j < |ranked| ensures ranked[i].similarityScore >= ranked[j].similarityScore {
      assert EntryScore(es[i]) >= EntryScore(es[j]);
    }
  }

  /** When every candidate gets the same score the upload order is kept. */
  lemma AllTiedKeepsUploadOrder<C>(jd: string, cs: seq<Candidate>, svc: Services<C>, s: real)
    requires forall c :: c in cs ==> Score(jd, c, svc) == s
    ensures Entries(RankCandidates(jd, cs, svc)) == ScoredEntries(jd, cs, svc)
  {
    var scored := ScoredEntries(jd, cs, svc);
    assert SortedDesc(scored, EntryScore) by {
      forall i, j | 0 <= i < j < |scored| ensures EntryScore(scored[i]) >= EntryScore(scored[j]) {
        assert cs[i] in cs && cs[j] in cs;
      }
    }
    SortDescUnique(scored, scored, EntryScore);
  }

  /** Uploads whose names end in neither suffix yield no candidate. */
  lemma {:induction false} CandidatesOfUnsupported<C>(uploads: seq<Upload<C>>, parse: (Format, C) -> Option<string>)
    requires forall i :: 0 <= i < |uploads| ==> Dispatch(uploads[i].filename) == None
    ensures Candidates(uploads, parse) == []
    decreases |uploads|
  {
    if |uploads| > 0 {
      assert Dispatch(uploads[0].filename) == None;
      assert forall i :: 0 <= i < |uploads[1..]| ==> uploads[1..][i] == uploads[i + 1];
      CandidatesOfUnsupported(uploads[1..], parse);
    }
  }

  /** A non-blank job description with only unsupported uploads is
      refused with the second message, and no ranking is produced. */
  lemma NoUsableResumes<C>(jobDescription: string, uploads: seq<Upload<C>>, svc: Services<C>)
    requires !IsBlank(jobDescription)
    requires forall i :: 0 <= i < |uploads| ==> Dispatch(uploads[i].filename) == None
    ensures ScreenResumes(jobDescription, uploads, svc) == Failure(400, NoResumesError)
  {
    CandidatesOfUnsupported(uploads, svc.parse);
  }
}
