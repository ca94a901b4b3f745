/** The `HelpFAQ` component (`src/components/HelpFAQ.tsx`): a fixed list of
    questions and answers narrowed by a case-insensitive search, and a
    support-ticket form whose submission is simulated. */
module Help {
  import opened Base
  import opened Strings
  import opened Effects

  /** `FAQ` of `src/lib/types.ts`. */
  datatype Faq = Faq(question: string, answer: string, category: Option<string>)

  /** `SupportTicket` of `src/lib/types.ts`. */
  datatype SupportTicket = SupportTicket(email: string, subject: string, message: string)

  const EmptyTicket := SupportTicket("", "", "")

  /** The four entries the component shows, in order. */
  const Faqs: seq<Faq> := [
    Faq("How does document encryption work?",
        "Documents are encrypted using AES-256 encryption before being uploaded to IPFS. Only users with the correct decryption key can access the original content.",
        Some("security")),
    Faq("What is IPFS?",
        "IPFS (InterPlanetary File System) is a peer-to-peer network for storing and sharing data in a distributed file system. Each file gets a unique CID (Content Identifier) for retrieval.",
        Some("technical")),
    Faq("How do I share encrypted documents?",
        "After uploading, you'll receive a CID and QR code. Share these along with the decryption password with intended recipients. They can use our platform to decrypt and access the documents.",
        Some("usage")),
    Faq("Is my data secure?",
        "Yes! We use industry-standard encryption, and your documents are encrypted before being uploaded. We never store your encryption keys, ensuring only you control access to your documents.",
        Some("security"))
  ]

  /** The filter's test: the lower-cased question or answer contains the
      lower-cased query. */
  predicate Matches(faq: Faq, query: string)
    ensures query == "" ==> Matches(faq, query)
  {
    assert query == "" ==> OccursAt(ToLower(faq.question), ToLower(query), 0);
    Contains(ToLower(faq.question), ToLower(query)) || Contains(ToLower(faq.answer), ToLower(query))
  }

  /** `faqs.filter(...)`: the entries that match, in their order. */
  function Filter(faqs: seq<Faq>, query: string): (r: seq<Faq>)
    ensures |r| <= |faqs|
  {
    if faqs == [] then []
    else
      var last := faqs[|faqs| - 1];
      Filter(faqs[..|faqs| - 1], query) + (if Matches(last, query) then [last] else [])
  }

  /** The filter keeps exactly the entries that match: every entry it
      returns is in the list and matches, and every matching entry of the
      list is returned. */
  lemma {:induction false} FilterMembership(faqs: seq<Faq>, query: string)
    ensures forall f :: f in Filter(faqs, query) <==> f in faqs && Matches(f, query)
  {
    if faqs != [] {
      var n := |faqs| - 1;
      FilterMembership(faqs[..n], query);
      assert faqs == faqs[..n] + [faqs[n]];
    }
  }

  /** `filteredFaqs`: every entry for an empty query, the matching ones
      otherwise. */
  function FilteredFaqs(faqs: seq<Faq>, query: string): (r: seq<Faq>)
    ensures query == "" ==> r == faqs
    ensures query != "" ==> forall f :: f in r <==> f in faqs && Matches(f, query)
  {
    FilterMembership(faqs, query);
    if query == "" then faqs else Filter(faqs, query)
  }

  /** `r` is what remains of `faqs` once the entries that do not match are
      dropped: `idx` lists, increasing, exactly the positions of the
      matching entries, and `r` holds those entries in that order. */
  ghost predicate SelectsMatches(r: seq<Faq>, faqs: seq<Faq>, query: string, idx: seq<nat>) {
    && |idx| == |r|
    && (forall k :: 0 <= k < |idx| ==> idx[k] < |faqs| && r[k] == faqs[idx[k]])
    && (forall k, l :: 0 <= k < l < |idx| ==> idx[k] < idx[l])
    && (forall i :: 0 <= i < |faqs| ==> (Matches(faqs[i], query) <==> i in idx))
  }

  /** The positions of the matching entries, increasing. */
  ghost function MatchPositions(faqs: seq<Faq>, query: string): (idx: seq<nat>)
    ensures forall k :: 0 <= k < |idx| ==> idx[k] < |faqs|
  {
    if faqs == [] then []
    else
      var n := |faqs| - 1;
      MatchPositions(faqs[..n], query) + (if Matches(faqs[n], query) then [n] else [])
  }

  /** The filter keeps the order of the list and adds nothing: its result
      is the subsequence of exactly the matching entries. */
  lemma {:induction false} FilterKeepsOrder(faqs: seq<Faq>, query: string)
    ensures SelectsMatches(Filter(faqs, query), faqs, query, MatchPositions(faqs, query))
  {
    if faqs != [] {
      var n := |faqs| - 1;
      FilterKeepsOrder(faqs[..n], query);
      SelectionExtends(Filter(faqs[..n], query), faqs[..n], query, MatchPositions(faqs[..n], query), faqs[n]);
      assert faqs[..n] + [faqs[n]] == faqs;
    }
  }

  /** Appending one entry to the list extends a selection by that entry
      and its position exactly when it matches. */
  lemma SelectionExtends(r: seq<Faq>, faqs: seq<Faq>, query: string, idx: seq<nat>, last: Faq)
    requires SelectsMatches(r, faqs, query, idx)
    ensures var m := Matches(last, query);
            SelectsMatches(r + (if m then [last] else []), faqs + [last], query, idx + (if m then [|faqs|] else []))
  {
    var m := Matches(last, query);
    var r', faqs', idx' := r + (if m then [last] else []), faqs + [last], idx + (if m then [|faqs|] else []);
    forall k | 0 <= k < |idx'| ensures idx'[k] < |faqs'| && r'[k] == faqs'[idx'[k]] {
      if k < |idx| {
        assert r'[k] == r[k] && idx'[k] == idx[k] && faqs'[idx[k]] == faqs[idx[k]];
      }
    }
    forall i | 0 <= i < |faqs'| ensures Matches(faqs'[i], query) <==> i in idx' {
      if i < |faqs| {
        assert faqs'[i] == faqs[i];
        assert |faqs| !in idx;
      }
    }
  }

  /** Every entry contains the empty string, so an empty query would keep
      every entry even without the `searchQuery ?` test. */
  lemma {:induction false} EmptyQueryKeepsAll(faqs: seq<Faq>)
    ensures Filter(faqs, "") == faqs
  {
    if faqs != [] {
      var n := |faqs| - 1;
      EmptyQueryKeepsAll(faqs[..n]);
      assert faqs[..n] + [faqs[n]] == faqs;
    }
  }

  /** Searching the component's list for `IPFS` shows the entry that
      explains IPFS, although its question spells it in capitals and the
      comparison is made in lower case. */
  lemma IpfsQueryFindsIpfsEntry()
    ensures Faqs[1] in FilteredFaqs(Faqs, "IPFS")
  {
    assert OccursAt(ToLower(Faqs[1].question), ToLower("IPFS"), 8);
  }

  /** The search ignores case: a query and its lower-cased form select the
      same entries. */
  lemma QueryCaseIgnored(faq: Faq, query: string)
    ensures Matches(faq, query) <==> Matches(faq, ToLower(query))
  {
    assert ToLower(ToLower(query)) == ToLower(query);
  }

  /** "No FAQs found matching your search." appears exactly when the query
      is non-empty and no entry matches it. */
  lemma NoResultsMessage(faqs: seq<Faq>, query: string)
    ensures |FilteredFaqs(faqs, query)| == 0 <==> faqs == [] || (query != "" && forall f :: f in faqs ==> !Matches(f, query))
  {
    if query != "" && (forall f :: f in faqs ==> !Matches(f, query)) {
      var r := Filter(faqs, query);
      if r != [] {
        assert r[0] in r;
      }
    }
  }

  /** The state of the component: the search box, the ticket form, whether
      a submission is pending, and the toasts shown. */
  class HelpFaq {
    var searchQuery: string
    var supportTicket: SupportTicket
    var isSubmitting: bool
    /** Every toast shown, oldest first. */
    var trace: seq<Event>

    constructor ()
      ensures searchQuery == "" && supportTicket == EmptyTicket && !isSubmitting && trace == []
    {
      searchQuery, supportTicket, isSubmitting, trace := "", EmptyTicket, false, [];
    }

    /** `setSearchQuery` from the search box. */
    method SetSearchQuery(value: string)
      modifies this
      ensures searchQuery == value
      ensures supportTicket == old(supportTicket) && isSubmitting == old(isSubmitting) && trace == old(trace)
    {
      searchQuery := value;
    }

    /** The email input's `onChange`: only the email changes. */
    method SetEmail(value: string)
      modifies this
      ensures supportTicket == old(supportTicket).(email := value)
      ensures searchQuery == old(searchQuery) && isSubmitting == old(isSubmitting) && trace == old(trace)
    {
      supportTicket := supportTicket.(email := value);
    }

    /** The subject input's `onChange`: only the subject changes. */
    method SetSubject(value: string)
      modifies this
      ensures supportTicket == old(supportTicket).(subject := value)
      ensures searchQuery == old(searchQuery) && isSubmitting == old(isSubmitting) && trace == old(trace)
    {
      supportTicket := supportTicket.(subject := value);
    }

    /** The message textarea's `onChange`: only the message changes. */
    method SetMessage(value: string)
      modifies this
      ensures supportTicket == old(supportTicket).(message := value)
      ensures searchQuery == old(searchQuery) && isSubmitting == old(isSubmitting) && trace == old(trace)
    {
      supportTicket := supportTicket.(message := value);
    }

    /** `handleSubmitTicket`: once the simulated call has waited, the
        "Ticket Submitted" toast, every field of the form emptied, and no
        submission pending. */
    method HandleSubmitTicket()
      modifies this
      ensures supportTicket == EmptyTicket
      ensures supportTicket.email == "" && supportTicket.subject == "" && supportTicket.message == ""
      ensures !isSubmitting
      ensures trace == old(trace) + [Toast(TicketSubmitted)]
      ensures searchQuery == old(searchQuery)
    {
      isSubmitting := true;
      trace := trace + [Toast(TicketSubmitted)];
      supportTicket := EmptyTicket;
      isSubmitting := false;
    }
  }
}
