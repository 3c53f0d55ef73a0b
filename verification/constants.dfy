/** The seed catalog the store starts from, and the messaging number the
    enquiry deep link targets. */
module Constants {
  import opened Types
  import Text

  const WhatsAppNumber: string := "919876543210"
  const ContactEmail: string := "info@rmagrichem.com"
  const CompanyAddress: string := "123 Green Valley, Agri Tech Park, New Delhi, India"

  const Seed1: Product := Product(
      "1", "GrowMax Yield Booster", Fertilizer,
      "A premium liquid fertilizer designed to maximize crop yield by enhancing nutrient absorption.",
      "2-3 ml per liter of water",
      ["Wheat", "Rice", "Corn", "Soybean"],
      ["Increases root development", "Boosts flowering", "Enhances stress resistance"],
      "1L", 1200, true, "https://picsum.photos/seed/agri1/600/600")

  const Seed2: Product := Product(
      "2", "PestControl Pro", Pesticide,
      "Broad-spectrum insecticide for controlling aphids, thrips, and whiteflies effectively.",
      "1.5 ml per liter",
      ["Cotton", "Vegetables", "Fruits"],
      ["Quick knockdown effect", "Long-lasting protection", "Rainfast in 2 hours"],
      "500ml", 850, true, "https://picsum.photos/seed/pest2/600/600")

  const Seed3: Product := Product(
      "3", "RootKing Humic Acid", GrowthPromoter,
      "Concentrated humic acid to improve soil structure and nutrient uptake.",
      "5kg per acre (Soil Application)",
      ["All Crops"],
      ["Improves soil aeration", "Increases water holding capacity", "Stimulates microbial activity"],
      "1kg", 450, false, "https://picsum.photos/seed/soil3/600/600")

  const Seed4: Product := Product(
      "4", "WeedWipe Herbicide", Herbicide,
      "Post-emergence herbicide for effective control of broadleaf weeds.",
      "10ml per liter",
      ["Sugarcane", "Maize"],
      ["Selective action", "Safe for main crop", "Controls tough weeds"],
      "1L", 1500, false, "https://picsum.photos/seed/weed4/600/600")

  const Seed5: Product := Product(
      "5", "FungiGuard Plus", Fungicide,
      "Systemic fungicide for prevention and cure of fungal diseases like powdery mildew.",
      "2g per liter",
      ["Grapes", "Tomato", "Potato"],
      ["Curative and preventive", "Systemic action", "Low residue"],
      "250g", 600, true, "https://picsum.photos/seed/fungi5/600/600")

  /** `INITIAL_PRODUCTS`: the catalog the store starts with. */
  const InitialProducts: seq<Product> := [Seed1, Seed2, Seed3, Seed4, Seed5]

  /** A list the admin editor can show as one comma-separated field and read
      back unchanged: at least one element, none containing a comma, none with
      a space at either end. */
  predicate EditableList(xs: seq<string>) {
    && |xs| >= 1
    && forall i :: 0 <= i < |xs| ==> ',' !in xs[i] && Text.IsTrimmed(xs[i])
  }

  /** The seed ids are "1" to "5", pairwise distinct. */
  lemma SeedIdsDistinct()
    ensures |InitialProducts| == 5
    ensures forall i, j :: 0 <= i < j < |InitialProducts| ==> InitialProducts[i].id != InitialProducts[j].id
  {
  }

  /** Exactly the products with ids 1, 2 and 5 are featured. */
  lemma SeedFeatured()
    ensures forall i :: 0 <= i < |InitialProducts| ==>
      (InitialProducts[i].isFeatured <==> InitialProducts[i].id in {"1", "2", "5"})
  {
  }

  /** Every seed price is positive. */
  lemma SeedPricesPositive()
    ensures forall i :: 0 <= i < |InitialProducts| ==> InitialProducts[i].price > 0
  {
  }

  /** No seed product is in the Seeds category. */
  lemma NoSeedInSeedsCategory()
    ensures forall i :: 0 <= i < |InitialProducts| ==> InitialProducts[i].category != Seeds
  {
  }

  /** Every seed product's crops and benefits survive the admin editor's
      comma-separated form. */
  lemma SeedListsEditable()
    ensures forall i :: 0 <= i < |InitialProducts| ==>
      EditableList(InitialProducts[i].crops) && EditableList(InitialProducts[i].benefits)
  {
    forall i | 0 <= i < |InitialProducts|
      ensures EditableList(InitialProducts[i].crops) && EditableList(InitialProducts[i].benefits)
    {
      SeedListEditable(i);
    }
  }

  lemma SeedListEditable(i: int)
    requires 0 <= i < |InitialProducts|
    ensures EditableList(InitialProducts[i].crops) && EditableList(InitialProducts[i].benefits)
  {
    if i == 0 {
      SeedEditable1();
    } else if i == 1 {
      SeedEditable2();
    } else if i == 2 {
      SeedEditable3();
    } else if i == 3 {
      SeedEditable4();
    } else {
      SeedEditable5();
    }
  }

  lemma SeedEditable1() ensures EditableList(Seed1.crops) && EditableList(Seed1.benefits) {
    ListEditable(Seed1.crops);
    ListEditable(Seed1.benefits);
  }

  lemma SeedEditable2() ensures EditableList(Seed2.crops) && EditableList(Seed2.benefits) {
    ListEditable(Seed2.crops);
    ListEditable(Seed2.benefits);
  }

  lemma SeedEditable3() ensures EditableList(Seed3.crops) && EditableList(Seed3.benefits) {
    ListEditable(Seed3.crops);
    ListEditable(Seed3.benefits);
  }

  lemma SeedEditable4() ensures EditableList(Seed4.crops) && EditableList(Seed4.benefits) {
    ListEditable(Seed4.crops);
    ListEditable(Seed4.benefits);
  }

  lemma SeedEditable5() ensures EditableList(Seed5.crops) && EditableList(Seed5.benefits) {
    ListEditable(Seed5.crops);
    ListEditable(Seed5.benefits);
  }

  predicate AsciiAlnum(c: char) {
    ('A' <= c <= 'Z') || ('a' <= c <= 'z') || ('0' <= c <= '9')
  }

  /** A list of comma-free words that start and end with a letter or digit
      is editable. */
  lemma ListEditable(xs: seq<string>)
    requires |xs| >= 1
    requires forall j :: 0 <= j < |xs| ==> ',' !in xs[j]
    requires forall j :: 0 <= j < |xs| ==> |xs[j]| > 0 && AsciiAlnum(xs[j][0]) && AsciiAlnum(xs[j][|xs[j]| - 1])
    ensures EditableList(xs)
  {
  }
}
