/**
 * When a reply is spoken, and as what, with every table of the rules written out: which gesture has which number, who
 * can hear which channel, and whose evidence a claim may rest on.
 */
module ReplyOutcome {
  import opened Bytes
  import opened Wrappers
  import opened SocialFrame
  import opened SocialEncoder
  import opened SocialReplyRules

  /** The number the game knows a gesture by, or zero for a word that is none. */
  function GestureNumber(word: bytes): nat {
    if word == "applaud" then 5 else if word == "bow" then 17 else if word == "cheer" then 21
    else if word == "chuckle" then 23 else if word == "greet" then 48 else if word == "grin" then 49
    else if word == "laugh" then 60 else if word == "nod" then 67 else if word == "salute" then 78
    else if word == "shrug" then 83 else if word == "sigh" then 85 else if word == "thank" then 97
    else if word == "wave" then 101 else if word == "ponder" then 120 else if word == "smile" then 163 else 0
  }

  /** A memory the channel's listeners may know: public in general and say, the party's in party, any in a whisper. */
  predicate MayBeToldOn(channel: nat, scope: nat) {
    (channel <= 1 && scope == 0) || (channel == 2 && scope <= 1) || (channel == 3 && scope <= 2)
  }

  /** A claim about the bot rests on what is known of it or of a source, a claim about the participant on theirs. */
  predicate MayRestOn(subject: ClaimSubject, owner: EvidenceSubject) {
    || (subject == CandidateBot && (owner == BotEvidence || owner == SourceEvidence))
    || (subject == Participant && owner == ParticipantEvidence)
  }

  predicate Cites(r: SocialReply) { r.evidence != [] || r.memories != [] }

  /** Everything cited was offered, may be told here, and is evidence of what is claimed. */
  ghost predicate Grounded(r: SocialReply, request: SocialRequest) {
    && (forall id | id in r.memories ::
          exists m | m in request.memories :: m.id == id && MayBeToldOn(request.channel, m.scope))
    && (forall id | id in r.evidence :: exists e | e in request.evidence :: e.id == id)
    && (forall e | e in request.evidence && e.id in r.evidence :: MayRestOn(r.subject, e.subject))
    && (r.memories != [] ==> r.subject == Participant)
  }

  /** What may be spoken as a line: allowed text, whose claim has a subject exactly when it cites something. */
  ghost predicate LineMayBeSpoken(r: SocialReply, request: SocialRequest, f: Filters) {
    var line := f.strip(r.message);
    && Grounded(r, request) && (r.subject == NoSubject <==> !Cites(r))
    && (r.contribution == Answer ==> request.expectsAnswer && Cites(r))
    && (r.contribution == FactFreeBanter ==> !Cites(r))
    && line != [] && |line| <= 240 && (forall c | c in line :: c as int >= 0x20)
    && f.lineAllowed(line) && f.claimAllowed(line, r)
  }

  predicate DistinctAtMost(ids: seq<bytes>, most: nat) {
    |ids| <= most && forall i, j | 0 <= i < j < |ids| :: ids[i] != ids[j]
  }

  /** A coherent reply is one thing: its text, its gesture, its declared kind, and its contribution all say which. */
  lemma CoherentExactlyWhen(r: SocialReply, f: Filters)
    ensures var speaks, gestures := f.strip(r.message) != [], r.emote != [];
      OneCoherentAnswer(r, f) <==>
        && DistinctAtMost(r.evidence, 24) && DistinctAtMost(r.memories, 12)
        && !(speaks && gestures) && (gestures ==> GestureNumber(r.emote) != 0)
        && (r.kind == Line <==> speaks) && (r.kind == GestureReply <==> gestures)
        && (r.contribution == Gesture <==> gestures) && (r.contribution == NoContribution <==> !speaks && !gestures)
        && (!speaks ==> r.subject == NoSubject && !Cites(r))
  {
    GestureHasItsNumber(r.emote);
    hide GestureNumber;
  }

  lemma NothingCited(r: SocialReply, request: SocialRequest)
    requires r.evidence == [] && r.memories == [] && r.subject.NoSubject?
    ensures Grounded(r, request)
    ensures CitationsHold(r, request) <==> !r.contribution.Answer?
  {
  }

  /** The offered memories a reply cites, as the rules look them up and as they are. */
  lemma MemoriesAreTellable(ids: seq<bytes>, request: SocialRequest)
    requires request.channel < 4 && forall m | m in request.memories :: m.scope <= 2
    ensures (forall i | 0 <= i < |ids| :: Offers(MemoriesWithin(request.memories, request.channel), ids[i]))
      <==> (forall id | id in ids ::
              exists m | m in request.memories :: m.id == id && MayBeToldOn(request.channel, m.scope))
  {
    var within := MemoriesWithin(request.memories, request.channel);
    forall m ensures m in within <==> m in request.memories && MayBeToldOn(request.channel, m.scope) {
      OfferedWithinScope(request.memories, request.channel, m);
    }
    hide MayBeToldOn, MemoriesWithin;
    forall id: bytes
      ensures Offers(within, id)
        <==> exists m | m in request.memories :: m.id == id && MayBeToldOn(request.channel, m.scope)
    {
      if Offers(within, id) {
        var m :| m in within && m.id == id;
        assert m in request.memories;
      }
      if m :| m in request.memories && m.id == id && MayBeToldOn(request.channel, m.scope) { assert m in within; }
    }
    assert forall i | 0 <= i < |ids| :: ids[i] in ids;
  }

  lemma EvidenceIsOffered(ids: seq<bytes>, evidence: seq<EvidenceEntry>)
    ensures (forall i | 0 <= i < |ids| :: HasEvidence(evidence, ids[i]))
      <==> (forall id | id in ids :: exists e | e in evidence :: e.id == id)
  {
    forall id: bytes ensures HasEvidence(evidence, id) <==> exists e | e in evidence :: e.id == id { }
    hide HasEvidence;
    assert forall i | 0 <= i < |ids| :: ids[i] in ids;
  }

  lemma OwnersAgree(subject: ClaimSubject, owner: EvidenceSubject)
    ensures Compatible(subject, owner) <==> MayRestOn(subject, owner)
  {
  }

  lemma CitationsHoldIff(r: SocialReply, request: SocialRequest)
    requires request.channel < 4 && forall m | m in request.memories :: m.scope <= 2
    ensures CitationsHold(r, request) <==>
      && Grounded(r, request) && (r.subject == NoSubject ==> !Cites(r))
      && (r.contribution == Answer ==> request.expectsAnswer && Cites(r))
      && (r.contribution == FactFreeBanter ==> r.subject == NoSubject && !Cites(r))
  {
    MemoriesAreTellable(r.memories, request);
    EvidenceIsOffered(r.evidence, request.evidence);
    forall e: EvidenceEntry ensures Compatible(r.subject, e.subject) <==> MayRestOn(r.subject, e.subject) {
      OwnersAgree(r.subject, e.subject);
    }
    hide MayBeToldOn, MemoriesWithin, Offers, HasEvidence, Compatible, MayRestOn;
  }

  lemma LineText(message: bytes, f: Filters)
    ensures var line := f.strip(message);
      ValidateMessage(message, f)
        == if line != [] && |line| <= 240 && (forall c | c in line :: c as int >= 0x20) && f.lineAllowed(line)
           then Some(line) else None
  {
    var line := f.strip(message);
    if exists i | 0 <= i < |line| :: line[i] as int < 0x20 {
      var i :| 0 <= i < |line| && line[i] as int < 0x20;
      assert line[i] in line;
    }
  }

  /**
   * What is spoken for a coherent reply, and exactly when: silence always, as nothing; a gesture as its number, where
   * it can be seen; a line as its trimmed text, when it is allowed and everything it cites bears it out.
   */
  lemma SpokenExactlyWhen(r: SocialReply, request: SocialRequest, f: Filters)
    requires OneCoherentAnswer(r, f) && request.channel < 4 && forall m | m in request.memories :: m.scope <= 2
    ensures ValidateSocialReply(r, request, f)
         == match r.kind
            case Silence => Some(([], 0))
            case GestureReply =>
              if request.channel == 1 || request.channel == 2 then Some(([], GestureNumber(r.emote))) else None
            case Line => if LineMayBeSpoken(r, request, f) then Some((f.strip(r.message), 0)) else None
  {
    match r.kind
    case Silence =>
    case GestureReply =>
      NothingCited(r, request);
      GestureHasItsNumber(r.emote);
    case Line =>
      hide CitationsHold, ValidateMessage, Grounded;
      CitationsHoldIff(r, request);
      LineText(r.message, f);
  }

  lemma GestureHasItsNumber(word: bytes)
    ensures GestureNumber(word) == if word in SOCIAL_EMOTES then SOCIAL_EMOTES[word] else 0
  {
  }
}
