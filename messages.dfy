/** The fixed texts of the rejection message built by `suggest_products`, and
    the character facts that tell its parts apart. */
module Messages {
  import opened Text

  /** Rejection reasons, in the order they are checked. */
  const RATIO_REASON: string := "نسبة الالتزامات عالية (أكثر من 40% من الدخل)"
  const AGE_REASON: string := "العمر أقل من 30 سنة"
  const TENURE_REASON: string := "مدة العمل أقل من 12 شهرًا"
  const ALL_REASONS: seq<string> := [RATIO_REASON, AGE_REASON, TENURE_REASON]

  /** Separator placed between reasons (an Arabic semicolon and a space). */
  const REASON_SEPARATOR: string := "؛ "
  /** Reason text used when none of the three checks fired. */
  const UNSPECIFIED_REASON: string := "سبب غير محدد - تحقق من البيانات"
  /** Opening of every rejection message ("not eligible because: "). */
  const REJECTION_PREFIX: string := "غير مؤهل بسبب: "

  // The only non-Arabic characters of each part of a rejection message.

  lemma RatioReasonAlphabet() ensures ArabicOr(RATIO_REASON, " ()40%") { }
  lemma AgeReasonAlphabet() ensures ArabicOr(AGE_REASON, " 30") { }
  lemma TenureReasonAlphabet() ensures ArabicOr(TENURE_REASON, " 12") { }
  lemma FallbackAlphabet() ensures ArabicOr(UNSPECIFIED_REASON, " -") { }
  lemma PrefixAlphabet() ensures ArabicOr(REJECTION_PREFIX, " :") { }
  lemma SeparatorAlphabet() ensures ArabicOr(REASON_SEPARATOR, " ") { }

  lemma RatioMarker()
    ensures Occurs("40%", RATIO_REASON)
  {
    OccursAt("40%", RATIO_REASON, 31);
  }

  lemma AgeMarker()
    ensures Occurs("30", AGE_REASON)
  {
    OccursAt("30", AGE_REASON, 13);
  }

  lemma TenureMarker()
    ensures Occurs("12", TENURE_REASON)
  {
    OccursAt("12", TENURE_REASON, 17);
  }

  /** Characters outside the Arabic block that are in none of the fixed
      parts of a message other than the reasons. */
  lemma NotInFixedParts(ch: char)
    requires ch < '\U{600}' && ch !in " -:"
    ensures ch !in REJECTION_PREFIX && ch !in REASON_SEPARATOR && ch !in UNSPECIFIED_REASON
  {
    PrefixAlphabet();
    SeparatorAlphabet();
    FallbackAlphabet();
    NotInAlphabet(REJECTION_PREFIX, " :", ch);
    NotInAlphabet(REASON_SEPARATOR, " ", ch);
    NotInAlphabet(UNSPECIFIED_REASON, " -", ch);
  }

  /** '%' belongs to the ratio reason only. */
  lemma PercentOnlyInRatioReason()
    ensures forall p :: p in ALL_REASONS && '%' in p ==> p == RATIO_REASON
    ensures '%' !in REJECTION_PREFIX && '%' !in REASON_SEPARATOR && '%' !in UNSPECIFIED_REASON
  {
    NotInFixedParts('%');
    AgeReasonAlphabet();
    TenureReasonAlphabet();
    NotInAlphabet(AGE_REASON, " 30", '%');
    NotInAlphabet(TENURE_REASON, " 12", '%');
  }

  /** '3' belongs to the age reason only. */
  lemma ThreeOnlyInAgeReason()
    ensures forall p :: p in ALL_REASONS && '3' in p ==> p == AGE_REASON
    ensures '3' !in REJECTION_PREFIX && '3' !in REASON_SEPARATOR && '3' !in UNSPECIFIED_REASON
  {
    NotInFixedParts('3');
    RatioReasonAlphabet();
    TenureReasonAlphabet();
    NotInAlphabet(RATIO_REASON, " ()40%", '3');
    NotInAlphabet(TENURE_REASON, " 12", '3');
  }

  /** '1' belongs to the tenure reason only. */
  lemma OneOnlyInTenureReason()
    ensures forall p :: p in ALL_REASONS && '1' in p ==> p == TENURE_REASON
    ensures '1' !in REJECTION_PREFIX && '1' !in REASON_SEPARATOR && '1' !in UNSPECIFIED_REASON
  {
    NotInFixedParts('1');
    RatioReasonAlphabet();
    AgeReasonAlphabet();
    NotInAlphabet(RATIO_REASON, " ()40%", '1');
    NotInAlphabet(AGE_REASON, " 30", '1');
  }

  /** '-' belongs to the fallback text only. */
  lemma DashOnlyInFallback()
    ensures forall p :: p in ALL_REASONS ==> '-' !in p
    ensures '-' !in REJECTION_PREFIX && '-' !in REASON_SEPARATOR && '-' in UNSPECIFIED_REASON
  {
    PrefixAlphabet();
    SeparatorAlphabet();
    RatioReasonAlphabet();
    AgeReasonAlphabet();
    TenureReasonAlphabet();
    NotInAlphabet(REJECTION_PREFIX, " :", '-');
    NotInAlphabet(REASON_SEPARATOR, " ", '-');
    NotInAlphabet(RATIO_REASON, " ()40%", '-');
    NotInAlphabet(AGE_REASON, " 30", '-');
    NotInAlphabet(TENURE_REASON, " 12", '-');
    assert UNSPECIFIED_REASON[13] == '-';
  }
}
