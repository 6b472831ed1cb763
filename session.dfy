/**
 * The Streamlit session state and the handlers that update it (bidWinner.py:29-36,
 * 39-127, 214-244, 249-298). Button presses, text typed into widgets and the answers
 * of the outside services are parameters of the handlers.
 */
module AppSession {
  import opened Wrappers
  import opened Requirements
  import opened GmailAuth
  import opened Inbox
  import opened Download

  /** The answer of a Claude call: the text of its first content block, or an exception. */
  datatype Reply = Replied(text: string) | ServiceFailed

  /** The Gmail search: the `get` results for the listed message ids in service order,
      or an exception from `build` or `list`. */
  datatype Listing = ListFailed | Listed(fetches: seq<Fetch>)

  /** How a press of "Check for RFP Updates" ended. */
  datatype CheckStatus = NotRun | NoMatches | Updated | CheckFailed

  class RfpSession {
    var requirements: seq<string>
    var proposal: string
    var gmailCreds: Option<Credential>
    var rfpUpdates: seq<string>
    var authStep: AuthStep

    /** At most five updates are ever shown. */
    predicate Valid()
      reads this
    {
      |rfpUpdates| <= MaxUpdates
    }

    /** The defaults of a fresh session (bidWinner.py:29-36, 138-139). */
    constructor ()
      ensures Valid()
      ensures requirements == [] && proposal == [] && gmailCreds == None
      ensures rfpUpdates == [] && authStep == Start
    {
      requirements := [];
      proposal := [];
      gmailCreds := None;
      rfpUpdates := [];
      authStep := Start;
    }

    /** "Extract Requirements" (bidWinner.py:39-112): shown once both PDFs are uploaded;
        a reply replaces the requirements by its parsed lines, a failure keeps them. */
    method ExtractRequirements(uploaded: bool, pressed: bool, reply: Reply)
      requires Valid()
      modifies this
      ensures Valid()
      ensures requirements ==
                (if uploaded && pressed && reply.Replied? then ParseRequirements(reply.text)
                 else old(requirements))
      ensures proposal == old(proposal) && gmailCreds == old(gmailCreds)
      ensures rfpUpdates == old(rfpUpdates) && authStep == old(authStep)
    {
      if uploaded && pressed {
        match reply
        case Replied(text) =>
          requirements := ParseRequirements(text);
        case ServiceFailed =>
      }
    }

    /** "Update Requirements" (bidWinner.py:115-127): the text areas exist only while
        there are requirements; a press commits all their values at once. The count stays
        the same and position i holds the i-th area's value. */
    method CommitRequirementEdits(pressed: bool, typed: map<nat, string>)
      requires Valid()
      modifies this
      ensures Valid()
      ensures |requirements| == |old(requirements)|
      ensures forall i :: 0 <= i < |requirements| ==>
                requirements[i] == (if pressed && i in typed then typed[i] else old(requirements)[i])
      ensures proposal == old(proposal) && gmailCreds == old(gmailCreds)
      ensures rfpUpdates == old(rfpUpdates) && authStep == old(authStep)
    {
      if requirements != [] {
        var updated := StageEdits(requirements, typed);
        if pressed {
          requirements := updated;
        }
      }
    }

    /** "Connect to Gmail" (bidWinner.py:214-215): one run of the step machine. The
        credentials are stored only when the function returns; a rerun or an exception
        leaves them as they were. */
    method ConnectGmail(pressed: bool, env: AuthEnv) returns (outcome: Option<AuthOutcome>)
      requires Valid()
      modifies this
      ensures Valid()
      ensures outcome.Some? <==> pressed
      ensures outcome.Some? ==> outcome.value == Authenticate(old(authStep), env).1
      ensures authStep == (if pressed then Authenticate(old(authStep), env).0 else old(authStep))
      ensures gmailCreds == (if outcome.Some? && outcome.value.Returned? then outcome.value.creds
                             else old(gmailCreds))
      ensures requirements == old(requirements) && proposal == old(proposal)
      ensures rfpUpdates == old(rfpUpdates)
    {
      outcome := None;
      if pressed {
        var (step, ending) := Authenticate(authStep, env);
        authStep := step;
        if ending.Returned? {
          gmailCreds := ending.creds;
        }
        outcome := Some(ending);
      }
    }

    /** "Check for RFP Updates" (bidWinner.py:217-240): offered only once credentials are
        stored. The updates are replaced only when the search lists messages and every
        one of the first five is fetched; no matches and every error leave them alone. */
    method CheckForUpdates(pressed: bool, listing: Listing) returns (status: CheckStatus)
      requires Valid()
      modifies this
      ensures Valid()
      ensures status == NotRun <==> !(gmailCreds.Some? && pressed)
      ensures status == NoMatches <==> gmailCreds.Some? && pressed && listing == Listed([])
      ensures status == Updated <==>
                && gmailCreds.Some? && pressed && listing.Listed? && listing.fetches != []
                && (forall i :: 0 <= i < Min(|listing.fetches|, MaxUpdates) ==> listing.fetches[i].Fetched?)
      ensures status == Updated ==>
                && |rfpUpdates| == Min(|listing.fetches|, MaxUpdates)
                && forall i :: 0 <= i < |rfpUpdates| ==> rfpUpdates[i] == Summary(listing.fetches[i].msg)
      ensures status != Updated ==> rfpUpdates == old(rfpUpdates)
      ensures requirements == old(requirements) && proposal == old(proposal)
      ensures gmailCreds == old(gmailCreds) && authStep == old(authStep)
    {
      if !(gmailCreds.Some? && pressed) {
        return NotRun;
      }
      match listing
      case ListFailed =>
        status := CheckFailed;
      case Listed(fetches) =>
        if fetches == [] {
          status := NoMatches;
        } else {
          var updates := BuildUpdates(fetches);
          match updates
          case None =>
            status := CheckFailed;
          case Some(u) =>
            rfpUpdates := u;
            status := Updated;
        }
    }

    /** "Generate Proposal" (bidWinner.py:249-284): offered only while there are
        requirements. The service is asked with the requirements joined by line breaks;
        a reply overwrites the proposal, a failure keeps it. */
    method GenerateProposal(pressed: bool, service: string -> Reply) returns (asked: Option<string>)
      requires Valid()
      modifies this
      ensures Valid()
      ensures asked.Some? <==> requirements != [] && pressed
      ensures asked.Some? ==> asked.value == RequirementsText(requirements)
      ensures proposal == (if asked.Some? && service(asked.value).Replied? then service(asked.value).text
                           else old(proposal))
      ensures requirements == old(requirements) && gmailCreds == old(gmailCreds)
      ensures rfpUpdates == old(rfpUpdates) && authStep == old(authStep)
    {
      asked := None;
      if requirements != [] && pressed {
        var text := RequirementsText(requirements);
        asked := Some(text);
        match service(text)
        case Replied(p) =>
          proposal := p;
        case ServiceFailed =>
      }
    }

    /** The proposal section (bidWinner.py:287-298): shown only while there is a
        proposal. The edited text is applied at once and "Download Proposal" yields the
        link for the text as edited. */
    method ProposalSection(edited: string, downloadPressed: bool) returns (link: Option<string>)
      requires Valid()
      modifies this
      ensures Valid()
      ensures proposal == (if old(proposal) != [] then edited else old(proposal))
      ensures link == (if old(proposal) != [] && downloadPressed then Some(DownloadLink(edited)) else None)
      ensures requirements == old(requirements) && gmailCreds == old(gmailCreds)
      ensures rfpUpdates == old(rfpUpdates) && authStep == old(authStep)
    {
      link := None;
      if proposal != [] {
        if edited != proposal {
          proposal := edited;
        }
        if downloadPressed {
          link := Some(DownloadLink(proposal));
        }
      }
    }
  }
}
