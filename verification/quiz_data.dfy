/**
 * The fixed tables of the design-personality quiz: five questions of four
 * options each, every option tagged with a style, and the four result
 * records a dominant style can map to. Option images are left out.
 */
module QuizData {

  /** One selectable answer: its display text and the style it votes for. */
  datatype QuizOption = QuizOption(text: string, style: string)

  datatype Question = Question(prompt: string, options: seq<QuizOption>)

  /** The record shown once the quiz is complete. */
  datatype StyleResult = StyleResult(
    title: string,
    description: string,
    colors: seq<string>,
    tips: seq<string>)

  const Questions: seq<Question> := [
    Question("What's your ideal living space vibe?", [
      QuizOption("Clean, minimal, and serene", "Minimalist"),
      QuizOption("Warm, layered, and eclectic", "Bohemian"),
      QuizOption("Sleek, modern, and sophisticated", "Contemporary"),
      QuizOption("Raw, urban, and edgy", "Industrial")]),
    Question("Which color palette speaks to you?", [
      QuizOption("Whites, grays, and natural wood", "Scandinavian"),
      QuizOption("Rich jewel tones and metallics", "Luxe"),
      QuizOption("Earthy terracotta and sage", "Bohemian"),
      QuizOption("Bold blacks and statement colors", "Modern")]),
    Question("What's your approach to furniture?", [
      QuizOption("Investment pieces that last forever", "Classic"),
      QuizOption("Mix of vintage finds and new pieces", "Eclectic"),
      QuizOption("Functional, multi-purpose, smart", "Contemporary"),
      QuizOption("Handcrafted, artisanal, unique", "Artisan")]),
    Question("How do you like to entertain?", [
      QuizOption("Intimate dinner parties", "Elegant"),
      QuizOption("Casual gatherings with friends", "Relaxed"),
      QuizOption("Large parties and celebrations", "Grand"),
      QuizOption("Cozy nights in", "Cozy")]),
    Question("What's most important in your home?", [
      QuizOption("Comfort and relaxation", "Comfortable"),
      QuizOption("Organization and efficiency", "Organized"),
      QuizOption("Beauty and aesthetics", "Aesthetic"),
      QuizOption("Creativity and inspiration", "Creative")])
  ]

  const ModernMinimalist := StyleResult(
    "Modern Minimalist",
    "You appreciate clean lines, open spaces, and the beauty of simplicity. Your ideal home is a serene sanctuary with carefully curated pieces.",
    ["White", "Light Gray", "Natural Wood", "Soft Beige"],
    ["Focus on quality over quantity", "Embrace negative space", "Choose furniture with clean lines", "Add texture through natural materials"])

  const BohemianFreeSpirit := StyleResult(
    "Bohemian Free Spirit",
    "You love mixing patterns, textures, and cultures. Your home tells stories through collected treasures and artistic expressions.",
    ["Terracotta", "Deep Teal", "Warm Ochre", "Rich Burgundy"],
    ["Layer rugs and textiles", "Mix vintage and global pieces", "Add plants everywhere", "Create cozy reading nooks"])

  const ContemporarySophisticate := StyleResult(
    "Contemporary Sophisticate",
    "You embrace current trends while maintaining timeless appeal. Your space is polished, functional, and effortlessly chic.",
    ["Charcoal Gray", "Crisp White", "Navy Blue", "Brass Accents"],
    ["Invest in statement lighting", "Mix textures and finishes", "Keep lines clean but add curves", "Balance warm and cool tones"])

  const IndustrialUrbanDweller := StyleResult(
    "Industrial Urban Dweller",
    "You appreciate raw materials, exposed elements, and urban aesthetics. Your home celebrates authentic, unfinished beauty.",
    ["Concrete Gray", "Raw Steel", "Warm Brick", "Deep Black"],
    ["Expose architectural elements", "Mix metal and wood", "Add vintage industrial pieces", "Embrace imperfections"])

  /** The `results` object literal, in its key order. */
  const Results: seq<(string, StyleResult)> := [
    ("Minimalist", ModernMinimalist),
    ("Bohemian", BohemianFreeSpirit),
    ("Contemporary", ContemporarySophisticate),
    ("Industrial", IndustrialUrbanDweller)
  ]

  /** The option at position `o` of question `q`. */
  function OptionAt(q: nat, o: nat): QuizOption
    requires q < |Questions| && o < |Questions[q].options|
  {
    Questions[q].options[o]
  }

  /** Every question offers exactly four options. */
  lemma FourOptionsEach()
    ensures |Questions| == 5
    ensures forall q :: 0 <= q < |Questions| ==> |Questions[q].options| == 4
  {
  }

  /** No two options of the whole table share a display text. */
  lemma OptionTextsDistinct(q1: nat, o1: nat, q2: nat, o2: nat)
    requires q1 < |Questions| && o1 < |Questions[q1].options|
    requires q2 < |Questions| && o2 < |Questions[q2].options|
    requires (q1, o1) != (q2, o2)
    ensures OptionAt(q1, o1).text != OptionAt(q2, o2).text
  {
    if q1 == q2 {
      TextsDistinctWithin(q1, o1, o2);
    } else {
      TextsDistinctAcross(q1, o1, q2, o2);
    }
  }

  lemma TextsDistinctWithin(q: nat, o1: nat, o2: nat)
    requires q < |Questions| && o1 < |Questions[q].options| && o2 < |Questions[q].options|
    requires o1 != o2
    ensures OptionAt(q, o1).text != OptionAt(q, o2).text
  {
  }

  lemma TextsDistinctAcross(q1: nat, o1: nat, q2: nat, o2: nat)
    requires q1 < |Questions| && o1 < |Questions[q1].options|
    requires q2 < |Questions| && o2 < |Questions[q2].options|
    requires q1 != q2
    ensures OptionAt(q1, o1).text != OptionAt(q2, o2).text
  {
  }

  /**
   * Only two styles are offered by more than one question: Bohemian by the
   * first two and Contemporary by the first and third.
   */
  lemma SharedStyles(q1: nat, o1: nat, q2: nat, o2: nat)
    requires q1 < q2 < |Questions|
    requires o1 < |Questions[q1].options| && o2 < |Questions[q2].options|
    requires OptionAt(q1, o1).style == OptionAt(q2, o2).style
    ensures (q1, o1, q2, o2) == (0, 1, 1, 2) || (q1, o1, q2, o2) == (0, 2, 2, 2)
  {
  }

  /** No style offered by the last question has a result record. */
  lemma LastQuestionStylesUnrecorded(o: nat)
    requires o < |Questions[4].options|
    ensures forall i :: 0 <= i < |Results| ==> Results[i].0 != OptionAt(4, o).style
    ensures OptionAt(4, o).style != "Minimalist" && OptionAt(4, o).style != "Bohemian"
    ensures OptionAt(4, o).style != "Contemporary" && OptionAt(4, o).style != "Industrial"
  {
  }
}
