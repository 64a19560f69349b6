/** The literal prose of the prompt catalog: the text between the
    placeholders of the code-review and commit-message templates, kept in
    pieces short enough that each piece's lack of an opening brace is a small
    proof of its own. */
module PromptCatalog {
  const CheckViolationsText1Piece1: string := "\nFormatting re-enabled.\n"
  const CheckViolationsText1Piece2: string := "\nYou are a senior code quality auditor a"
  const CheckViolationsText1Piece3: string := "nd language standards specialist. Your r"
  const CheckViolationsText1Piece4: string := "ole is to rigorously evaluate source cod"
  const CheckViolationsText1Piece5: string := "e changes for compliance with industry-r"
  const CheckViolationsText1Piece6: string := "ecognized best practices and language-sp"
  const CheckViolationsText1Piece7: string := "ecific conventions.\n"
  const CheckViolationsText1Piece8: string := "\nApply these coding rules:\n"
  const CheckViolationsText1: string :=
    CheckViolationsText1Piece1
    + CheckViolationsText1Piece2
    + CheckViolationsText1Piece3
    + CheckViolationsText1Piece4
    + CheckViolationsText1Piece5
    + CheckViolationsText1Piece6
    + CheckViolationsText1Piece7
    + CheckViolationsText1Piece8
  const CheckViolationsText2Piece1: string := "\n\nThe results will be returned in table "
  const CheckViolationsText2Piece2: string := "format, include 6 columns:\n"
  const CheckViolationsText2Piece3: string := "  1. No - Sequential index of each rule "
  const CheckViolationsText2Piece4: string := "check.\n  2. Criterion – The name or desc"
  const CheckViolationsText2Piece5: string := "ription of the coding rule being evaluat"
  const CheckViolationsText2Piece6: string := "ed.\n  3. Result – Whether the rule is fo"
  const CheckViolationsText2Piece7: string := "llowed (Pass or Fail).\n"
  const CheckViolationsText2Piece8: string := "  4. Violation Summary – A brief descrip"
  const CheckViolationsText2Piece9: string := "tion of the rule violation, if any.\n"
  const CheckViolationsText2Piece10: string := "  5. Explanation – A short explanation o"
  const CheckViolationsText2Piece11: string := "f why it is considered a violation.\n"
  const CheckViolationsText2Piece12: string := "  6. Offending Code – The exact snippet "
  const CheckViolationsText2Piece13: string := "of code where the violation occurs with "
  const CheckViolationsText2Piece14: string := "line number.\n\nThe table will evaluate an"
  const CheckViolationsText2Piece15: string := "d reflect all criteria explicitly define"
  const CheckViolationsText2Piece16: string := "d in the coding rules above.\n"
  const CheckViolationsText2Piece17: string := "All individual criteria will be listed a"
  const CheckViolationsText2Piece18: string := "nd assessed separately.\n"
  const CheckViolationsText2Piece19: string := "Use this format to present all rule chec"
  const CheckViolationsText2Piece20: string := "ks clearly.\n\nEvaluate the following diff"
  const CheckViolationsText2Piece21: string := ":\n"
  const CheckViolationsText2Head: string :=
    CheckViolationsText2Piece1
    + CheckViolationsText2Piece2
    + CheckViolationsText2Piece3
    + CheckViolationsText2Piece4
    + CheckViolationsText2Piece5
    + CheckViolationsText2Piece6
    + CheckViolationsText2Piece7
    + CheckViolationsText2Piece8
    + CheckViolationsText2Piece9
    + CheckViolationsText2Piece10
    + CheckViolationsText2Piece11
  const CheckViolationsText2Tail: string :=
    CheckViolationsText2Piece12
    + CheckViolationsText2Piece13
    + CheckViolationsText2Piece14
    + CheckViolationsText2Piece15
    + CheckViolationsText2Piece16
    + CheckViolationsText2Piece17
    + CheckViolationsText2Piece18
    + CheckViolationsText2Piece19
    + CheckViolationsText2Piece20
    + CheckViolationsText2Piece21
  const CheckViolationsText2: string := CheckViolationsText2Head + CheckViolationsText2Tail
  const CheckViolationsText3Piece1: string := "\n\nOnly the lines prefixed with '+' (i.e."
  const CheckViolationsText3Piece2: string := "new lines, edit line) need to be evaluat"
  const CheckViolationsText3Piece3: string := "ed.\n\nRespond strictly in "
  const CheckViolationsText3: string :=
    CheckViolationsText3Piece1
    + CheckViolationsText3Piece2
    + CheckViolationsText3Piece3
  const CheckViolationsText4: string := ".\n"
  const GenerateCommitText1Piece1: string := "\nYou are a source code management expert"
  const GenerateCommitText1Piece2: string := ". Generate a professional commit message"
  const GenerateCommitText1Piece3: string := " using the Conventional Commit Specifica"
  const GenerateCommitText1Piece4: string := "tion.\n\nWrite a general summary only, no "
  const GenerateCommitText1Piece5: string := "need for detailed explanation.\n"
  const GenerateCommitText1Piece6: string := "\nSplit the message into Frontend and Bac"
  const GenerateCommitText1Piece7: string := "kend sections. If any part is missing, t"
  const GenerateCommitText1Piece8: string := "hen there is no need to mention Frontend"
  const GenerateCommitText1Piece9: string := " or Backend.\n\nBased on this diff:\n"
  const GenerateCommitText1: string :=
    GenerateCommitText1Piece1
    + GenerateCommitText1Piece2
    + GenerateCommitText1Piece3
    + GenerateCommitText1Piece4
    + GenerateCommitText1Piece5
    + GenerateCommitText1Piece6
    + GenerateCommitText1Piece7
    + GenerateCommitText1Piece8
    + GenerateCommitText1Piece9
  const GenerateCommitText2: string := "\n\nDeleted Files:\n"
  const GenerateCommitText3: string := "\n\nRespond strictly in "
  const GenerateCommitText4: string := ", without using Markdown formatting.\n"

  // ---------------------------------------------------------------------
  // No piece opens a placeholder
  // ---------------------------------------------------------------------

  lemma CheckViolationsText1Piece1Free()
    ensures '{' !in CheckViolationsText1Piece1
  {
  }

  lemma CheckViolationsText1Piece2Free()
    ensures '{' !in CheckViolationsText1Piece2
  {
  }

  lemma CheckViolationsText1Piece3Free()
    ensures '{' !in CheckViolationsText1Piece3
  {
  }

  lemma CheckViolationsText1Piece4Free()
    ensures '{' !in CheckViolationsText1Piece4
  {
  }

  lemma CheckViolationsText1Piece5Free()
    ensures '{' !in CheckViolationsText1Piece5
  {
  }

  lemma CheckViolationsText1Piece6Free()
    ensures '{' !in CheckViolationsText1Piece6
  {
  }

  lemma CheckViolationsText1Piece7Free()
    ensures '{' !in CheckViolationsText1Piece7
  {
  }

  lemma CheckViolationsText1Piece8Free()
    ensures '{' !in CheckViolationsText1Piece8
  {
  }

  lemma CheckViolationsText2Piece1Free()
    ensures '{' !in CheckViolationsText2Piece1
  {
  }

  lemma CheckViolationsText2Piece2Free()
    ensures '{' !in CheckViolationsText2Piece2
  {
  }

  lemma CheckViolationsText2Piece3Free()
    ensures '{' !in CheckViolationsText2Piece3
  {
  }

  lemma CheckViolationsText2Piece4Free()
    ensures '{' !in CheckViolationsText2Piece4
  {
  }

  lemma CheckViolationsText2Piece5Free()
    ensures '{' !in CheckViolationsText2Piece5
  {
  }

  lemma CheckViolationsText2Piece6Free()
    ensures '{' !in CheckViolationsText2Piece6
  {
  }

  lemma CheckViolationsText2Piece7Free()
    ensures '{' !in CheckViolationsText2Piece7
  {
  }

  lemma CheckViolationsText2Piece8Free()
    ensures '{' !in CheckViolationsText2Piece8
  {
  }

  lemma CheckViolationsText2Piece9Free()
    ensures '{' !in CheckViolationsText2Piece9
  {
  }

  lemma CheckViolationsText2Piece10Free()
    ensures '{' !in CheckViolationsText2Piece10
  {
  }

  lemma CheckViolationsText2Piece11Free()
    ensures '{' !in CheckViolationsText2Piece11
  {
  }

  lemma CheckViolationsText2Piece12Free()
    ensures '{' !in CheckViolationsText2Piece12
  {
  }

  lemma CheckViolationsText2Piece13Free()
    ensures '{' !in CheckViolationsText2Piece13
  {
  }

  lemma CheckViolationsText2Piece14Free()
    ensures '{' !in CheckViolationsText2Piece14
  {
  }

  lemma CheckViolationsText2Piece15Free()
    ensures '{' !in CheckViolationsText2Piece15
  {
  }

  lemma CheckViolationsText2Piece16Free()
    ensures '{' !in CheckViolationsText2Piece16
  {
  }

  lemma CheckViolationsText2Piece17Free()
    ensures '{' !in CheckViolationsText2Piece17
  {
  }

  lemma CheckViolationsText2Piece18Free()
    ensures '{' !in CheckViolationsText2Piece18
  {
  }

  lemma CheckViolationsText2Piece19Free()
    ensures '{' !in CheckViolationsText2Piece19
  {
  }

  lemma CheckViolationsText2Piece20Free()
    ensures '{' !in CheckViolationsText2Piece20
  {
  }

  lemma CheckViolationsText2Piece21Free()
    ensures '{' !in CheckViolationsText2Piece21
  {
  }

  lemma CheckViolationsText3Piece1Free()
    ensures '{' !in CheckViolationsText3Piece1
  {
  }

  lemma CheckViolationsText3Piece2Free()
    ensures '{' !in CheckViolationsText3Piece2
  {
  }

  lemma CheckViolationsText3Piece3Free()
    ensures '{' !in CheckViolationsText3Piece3
  {
  }

  lemma GenerateCommitText1Piece1Free()
    ensures '{' !in GenerateCommitText1Piece1
  {
  }

  lemma GenerateCommitText1Piece2Free()
    ensures '{' !in GenerateCommitText1Piece2
  {
  }

  lemma GenerateCommitText1Piece3Free()
    ensures '{' !in GenerateCommitText1Piece3
  {
  }

  lemma GenerateCommitText1Piece4Free()
    ensures '{' !in GenerateCommitText1Piece4
  {
  }

  lemma GenerateCommitText1Piece5Free()
    ensures '{' !in GenerateCommitText1Piece5
  {
  }

  lemma GenerateCommitText1Piece6Free()
    ensures '{' !in GenerateCommitText1Piece6
  {
  }

  lemma GenerateCommitText1Piece7Free()
    ensures '{' !in GenerateCommitText1Piece7
  {
  }

  lemma GenerateCommitText1Piece8Free()
    ensures '{' !in GenerateCommitText1Piece8
  {
  }

  lemma GenerateCommitText1Piece9Free()
    ensures '{' !in GenerateCommitText1Piece9
  {
  }

  lemma CheckViolationsText1Free()
    ensures '{' !in CheckViolationsText1
  {
    CheckViolationsText1Piece1Free();
    CheckViolationsText1Piece2Free();
    CheckViolationsText1Piece3Free();
    CheckViolationsText1Piece4Free();
    CheckViolationsText1Piece5Free();
    CheckViolationsText1Piece6Free();
    CheckViolationsText1Piece7Free();
    CheckViolationsText1Piece8Free();
  }

  lemma CheckViolationsText2Free()
    ensures '{' !in CheckViolationsText2
  {
    CheckViolationsText2HeadFree();
    CheckViolationsText2TailFree();
  }

  lemma CheckViolationsText2HeadFree()
    ensures '{' !in CheckViolationsText2Head
  {
    CheckViolationsText2Piece1Free();
    CheckViolationsText2Piece2Free();
    CheckViolationsText2Piece3Free();
    CheckViolationsText2Piece4Free();
    CheckViolationsText2Piece5Free();
    CheckViolationsText2Piece6Free();
    CheckViolationsText2Piece7Free();
    CheckViolationsText2Piece8Free();
    CheckViolationsText2Piece9Free();
    CheckViolationsText2Piece10Free();
    CheckViolationsText2Piece11Free();
  }

  lemma CheckViolationsText2TailFree()
    ensures '{' !in CheckViolationsText2Tail
  {
    CheckViolationsText2Piece12Free();
    CheckViolationsText2Piece13Free();
    CheckViolationsText2Piece14Free();
    CheckViolationsText2Piece15Free();
    CheckViolationsText2Piece16Free();
    CheckViolationsText2Piece17Free();
    CheckViolationsText2Piece18Free();
    CheckViolationsText2Piece19Free();
    CheckViolationsText2Piece20Free();
    CheckViolationsText2Piece21Free();
  }

  lemma CheckViolationsText3Free()
    ensures '{' !in CheckViolationsText3
  {
    CheckViolationsText3Piece1Free();
    CheckViolationsText3Piece2Free();
    CheckViolationsText3Piece3Free();
  }

  lemma CheckViolationsText4Free()
    ensures '{' !in CheckViolationsText4
  {
  }

  lemma GenerateCommitText1Free()
    ensures '{' !in GenerateCommitText1
  {
    GenerateCommitText1Piece1Free();
    GenerateCommitText1Piece2Free();
    GenerateCommitText1Piece3Free();
    GenerateCommitText1Piece4Free();
    GenerateCommitText1Piece5Free();
    GenerateCommitText1Piece6Free();
    GenerateCommitText1Piece7Free();
    GenerateCommitText1Piece8Free();
    GenerateCommitText1Piece9Free();
  }

  lemma GenerateCommitText2Free()
    ensures '{' !in GenerateCommitText2
  {
  }

  lemma GenerateCommitText3Free()
    ensures '{' !in GenerateCommitText3
  {
  }

  lemma GenerateCommitText4Free()
    ensures '{' !in GenerateCommitText4
  {
  }

  /** No opening brace occurs anywhere in the catalog's prose, so the only
      placeholders of the two templates are their holes. */
  lemma ProseOpensNoPlaceholder()
    ensures '{' !in CheckViolationsText1
    ensures '{' !in CheckViolationsText2
    ensures '{' !in CheckViolationsText3
    ensures '{' !in CheckViolationsText4
    ensures '{' !in GenerateCommitText1
    ensures '{' !in GenerateCommitText2
    ensures '{' !in GenerateCommitText3
    ensures '{' !in GenerateCommitText4
  {
    CheckViolationsText1Free();
    CheckViolationsText2Free();
    CheckViolationsText3Free();
    CheckViolationsText4Free();
    GenerateCommitText1Free();
    GenerateCommitText2Free();
    GenerateCommitText3Free();
    GenerateCommitText4Free();
  }
}
